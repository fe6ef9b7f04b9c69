/** Translation of Unix paths to Windows paths and back (libposix/vfs/vfs_namei.c, libposix/sys/namei.c). */
module Paths {
  import opened Common

  const PATH_MAX := 1024
  /** PROCESS_ROOT is this prefix, which is all that the printer compares, and a backslash. */
  const PROCESS_PREFIX := "\\\\.\\GLOBALROOT"
  const PROCESS_ROOT := PROCESS_PREFIX + "\\"

  /** The character at `i`, or the terminator behind the string. */
  function At(s: string, i: nat): char {
    if i < |s| then s[i] else NUL
  }

  /** How a character of a source path is stored in the resolved path. */
  function Stored(c: char): char {
    if c == '/' then '\\' else if c == ':' then '_' else c
  }

  function Translate(s: string): (r: string)
    ensures |r| == |s| && forall i :: 0 <= i < |s| ==> r[i] == Stored(s[i])
  {
    seq(|s|, i requires 0 <= i < |s| => Stored(s[i]))
  }

  /** The index of the next slash, or of the terminator. */
  function End(s: string, i: nat): (e: nat)
    requires i <= |s|
    ensures i <= e <= |s| && (e < |s| ==> s[e] == '/')
    ensures forall k :: i <= k < e ==> s[k] != '/'
    decreases |s| - i
  {
    if i == |s| || s[i] == '/' then i else End(s, i + 1)
  }

  /** Where reading goes on after the component at `i`. */
  function After(s: string, i: nat): (r: nat)
    requires i <= |s|
    ensures i <= r <= |s|
  {
    if End(s, i) < |s| then End(s, i) + 1 else |s|
  }

  function StrippedLength(s: string): nat {
    if s != "" && s[|s| - 1] == '/' then |s| - 1 else |s|
  }

  /** What is resolved after `n` characters of the source. */
  function Walked(root: string, source: string, n: nat): string
    requires n <= |source|
  {
    root + "\\" + Translate(source[0..n])
  }

  /** Every prefix that ends before one of the first `n` characters of the source, a slash,
      is present once resolved. */
  ghost predicate AllPresent(root: string, source: string, present: string -> bool, n: int)
    requires n <= |source|
  {
    forall k {:trigger source[k]} :: 0 <= k < n && source[k] == '/' ==> present(Walked(root, source, k))
  }

  lemma AllPresentNext(root: string, source: string, present: string -> bool, end: nat)
    requires end < |source| && AllPresent(root, source, present, end) && present(Walked(root, source, end))
    ensures AllPresent(root, source, present, End(source, end + 1))
  {
  }

  /** Every prefix that ends before a slash was asked for, the first included. */
  lemma AllPresentIs(root: string, source: string, present: string -> bool, n: int, k: nat)
    requires n <= |source| && k < n && source[k] == '/' && AllPresent(root, source, present, n)
    ensures present(root + "\\" + Translate(source[..k]))
  {
    assert source[0..k] == source[..k];
  }

  /** At the end of the walk, all prefixes that are asked for were present. */
  lemma AllPresentDone(root: string, source: string, present: string -> bool, strip: bool, start: nat)
    requires start <= |source| && (strip && source != "" ==> start < |source|)
    requires AllPresent(root, source, present, End(source, start))
    requires if strip then After(source, start) == |source| else End(source, start) == |source|
    ensures AllPresent(root, source, present, if strip then |source| - 1 else |source|)
    ensures strip ==> End(source, start) == StrippedLength(source)
  {
  }

  lemma TranslateNext(s: string, i: nat, j: nat)
    requires i <= j < |s|
    ensures Translate(s[i..j + 1]) == Translate(s[i..j]) + [Stored(s[j])]
  {
    assert s[i..j + 1] == s[i..j] + [s[j]];
  }

  /** A slash at `i` is resolved as the backslash before the next component. */
  lemma WalkedNext(root: string, s: string, i: nat, j: nat)
    requires i < j <= |s| && s[i] == '/'
    ensures Walked(root, s, i) + "\\" + Translate(s[i + 1..j]) == Walked(root, s, j)
  {
    assert s[0..j] == s[0..i] + [s[i]] + s[i + 1..j];
  }

  /** What the walk resolves: one trailing slash is stripped if it gets to the end. */
  ghost function LookedUp(root: string, source: string, present: string -> bool, strip: bool): string {
    Walked(root, source,
           if strip && AllPresent(root, source, present, |source| - 1) then StrippedLength(source) else |source|)
  }

  /** The length without any trailing slash. */
  function BareLength(s: string): (n: nat)
    ensures n <= |s| && (n > 0 ==> s[n - 1] != '/') && forall k :: n <= k < |s| ==> s[k] == '/'
  {
    if s != "" && s[|s| - 1] == '/' then BareLength(s[..|s| - 1]) else |s|
  }

  predicate EndsInSlashes(s: string, n: nat) {
    n <= |s| && forall k :: |s| - n <= k < |s| ==> s[k] == '/'
  }

  lemma WalkedSame(root: string, source: string, i: nat, j: nat)
    requires i <= |source| && j <= |source|
    ensures Walked(root, source, i) == Walked(root, source, j) <==> i == j
  {
    assert |Walked(root, source, i)| == |root| + 1 + i && |Walked(root, source, j)| == |root| + 1 + j;
  }

  /** How many trailing slashes there are: none, one, or more. */
  lemma BareIs(s: string)
    ensures BareLength(s) == |s| <==> !EndsInSlashes(s, 1)
    ensures BareLength(s) == |s| - 1 <==> EndsInSlashes(s, 1) && !EndsInSlashes(s, 2)
  {
    if EndsInSlashes(s, 1) {
      assert s[|s| - 1] == '/';
      if |s| > 1 && s[|s| - 2] == '/' {
        assert EndsInSlashes(s, 2);
      }
    }
  }

  /** Stripping does what it is for, that is no trailing slash is left, if and only if there
      is none to begin with, or just one and every prefix that is asked for is present. */
  lemma StripsAll(root: string, source: string, present: string -> bool)
    ensures LookedUp(root, source, present, true) == Walked(root, source, BareLength(source)) <==>
            !EndsInSlashes(source, 1)
            || (!EndsInSlashes(source, 2) && AllPresent(root, source, present, |source| - 1))
  {
    BareIs(source);
    var n := if AllPresent(root, source, present, |source| - 1) then StrippedLength(source) else |source|;
    WalkedSame(root, source, n, BareLength(source));
  }

  /** Of "a//" one slash is left although every prefix is present, and of "a/b/" the one slash
      if "a" is not. */
  lemma SlashesLeft(root: string)
    ensures LookedUp(root, "a//", _ => true, true) == Walked(root, "a//", 2)
    ensures LookedUp(root, "a/b/", _ => false, true) == Walked(root, "a/b/", 4)
    ensures BareLength("a//") == 1 && BareLength("a/b/") == 3
  {
    assert "a/b/"[1] == '/';
  }

  /** WIN_NAMEIDATA: `s` is the read position in the source, and `resolved` the buffer up
      to the write position R. */
  class NameiData {
    const source: string
    var s: nat
    var resolved: string
    var base: nat

    constructor (source: string, root: string)
      ensures this.source == source && s == 0 && resolved == root && base == 0
    {
      this.source, s, resolved, base := source, 0, root, 0;
    }

    /** Reads one component. The result is the character that ended it, or, when trailing
        slashes are to be stripped, the one after that. */
    method PathRead(stripSlashes: bool) returns (c: char)
      requires IsString(source) && s <= |source|
      modifies this
      ensures resolved == old(resolved) + "\\" + Translate(source[old(s)..End(source, old(s))])
      ensures base == |old(resolved)| + 1
      ensures s == After(source, old(s))
      ensures c == At(source, if stripSlashes then s else End(source, old(s)))
    {
      resolved := resolved + "\\";
      base := |resolved|;
      ghost var start, out := s, resolved;
      c := At(source, s);
      while c != NUL
        invariant start <= s <= End(source, start) && c == At(source, s)
        invariant End(source, s) == End(source, start)
        invariant resolved == out + Translate(source[start..s]) && base == |out|
        decreases |source| - s
      {
        s := s + 1;
        if c == '/' {
          break;
        }
        TranslateNext(source, start, s - 1);
        resolved := resolved + [if c == ':' then '_' else c];
        c := At(source, s);
      }
      if stripSlashes {
        c := At(source, s);
      }
    }

    /** Copies the rest of the source. */
    method PathCopy()
      requires IsString(source) && s <= |source|
      modifies this
      ensures s == |source| && base == |old(resolved)|
      ensures resolved == old(resolved) + Translate(source[old(s)..])
    {
      base := |resolved|;
      ghost var start := s;
      var c := At(source, s);
      while c != NUL
        invariant start <= s <= |source| && base == |old(resolved)|
        invariant c == At(source, s)
        invariant resolved == old(resolved) + Translate(source[start..s])
        decreases |source| - s
      {
        s := s + 1;
        TranslateNext(source, start, s - 1);
        if c == '/' {
          c := '\\';
        } else if c == ':' {
          c := '_';
        }
        resolved := resolved + [c];
        c := At(source, s);
      }
      assert source[start..s] == source[start..];
    }

    /** The source is resolved up to the slash at `end`, and reading goes on behind it. */
    ghost predicate AtSlash(root: string, end: nat)
      reads this
    {
      end < |source| && source[end] == '/' && s == end + 1 && resolved == Walked(root, source, end)
    }

    /** The way out of the loop of vfs_lookup() when a prefix is missing. */
    method CopyRest(ghost root: string, ghost end: nat)
      requires IsString(source) && AtSlash(root, end)
      modifies this
      ensures resolved == Walked(root, source, |source|)
    {
      resolved := resolved + "\\";
      assert source[s..] == source[end + 1..|source|];
      PathCopy();
      WalkedNext(root, source, end, |source|);
    }

    /** The next component in the loop of vfs_lookup(). */
    method ReadNext(stripSlashes: bool, ghost root: string, ghost end: nat) returns (c: char)
      requires IsString(source) && AtSlash(root, end)
      modifies this
      ensures resolved == Walked(root, source, End(source, end + 1)) && s == After(source, end + 1)
      ensures c == At(source, if stripSlashes then s else End(source, end + 1))
    {
      c := PathRead(stripSlashes);
      WalkedNext(root, source, end, End(source, end + 1));
    }

    /** The loop of vfs_lookup(). */
    method Walk(stripSlashes: bool, present: string -> bool) returns (closed: bool)
      requires IsString(source) && s == 0
      modifies this
      ensures resolved == Walked(old(resolved), source, if stripSlashes && closed then StrippedLength(source) else |source|)
      ensures closed <==> AllPresent(old(resolved), source, present, if stripSlashes then |source| - 1 else |source|)
    {
      ghost var root := resolved;
      var c := PathRead(stripSlashes);
      ghost var start := 0;
      while c != NUL
        invariant 0 <= start <= |source| && s == After(source, start)
        invariant c == At(source, if stripSlashes then s else End(source, start))
        invariant stripSlashes && source != "" ==> start < |source|
        invariant resolved == Walked(root, source, End(source, start))
        invariant AllPresent(root, source, present, End(source, start))
        decreases |source| - End(source, start)
      {
        ghost var end := End(source, start);
        assert AtSlash(root, end);
        if !present(resolved) {
          CopyRest(root, end);
          return false;
        }
        c := ReadNext(stripSlashes, root, end);
        AllPresentNext(root, source, present, end);
        start := end + 1;
      }
      closed := true;
      AllPresentDone(root, source, present, stripSlashes, start);
    }

    /** vfs_lookup() up to PathClose.  `present` answers PathGlob for every resolved prefix
        and does not rewrite it; `closed` tells whether PathClose is reached. */
    method VfsLookup(pathCopy: bool, stripSlashes: bool, present: string -> bool) returns (closed: bool)
      requires IsString(source) && s == 0
      modifies this
      ensures pathCopy ==> closed && resolved == old(resolved) + Translate(source)
      ensures !pathCopy ==>
                && resolved == LookedUp(old(resolved), source, present, stripSlashes)
                && (closed <==> AllPresent(old(resolved), source, present, if stripSlashes then |source| - 1 else |source|))
    {
      if pathCopy {
        PathCopy();
        assert source[0..] == source;
        closed := true;
      } else {
        closed := Walk(stripSlashes, present);
      }
    }
  }

  // ---------- absolute paths ----------

  predicate StartsWith(s: string, prefix: string) {
    |prefix| <= |s| && s[..|prefix|] == prefix
  }

  predicate IsAbsolute(p: string) {
    IsString(p) && p != "" && p[0] == '/'
  }

  predicate UnderProc(p: string) {
    StartsWith(p, "/proc/")
  }

  /** root_win(): where resolving starts, and what is left to resolve. */
  function Root(p: string): string {
    if UnderProc(p) then PROCESS_ROOT else "."
  }

  function Rest(p: string): string
    requires IsAbsolute(p)
  {
    if UnderProc(p) then p[6..] else p[1..]
  }

  /** The resolved path does not depend on which prefixes are present. */
  function Resolve(p: string): string
    requires IsAbsolute(p)
  {
    Root(p) + "\\" + Translate(Rest(p))
  }

  /** An absolute path resolves below the current drive, and one below /proc among the devices. */
  lemma ResolveIs(p: string)
    requires IsAbsolute(p)
    ensures !StartsWith(p, "/proc/") ==> Resolve(p) == "." + Translate(p)
    ensures StartsWith(p, "/proc/") ==> Resolve(p) == "\\\\.\\GLOBALROOT\\\\" + Translate(p[6..])
  {
    if StartsWith(p, "/proc/") {
      assert "\\\\.\\GLOBALROOT" + "\\" + "\\" == "\\\\.\\GLOBALROOT\\\\";
    } else {
      assert Translate(p) == "\\" + Translate(p[1..]);
    }
  }

  /** The absolute-path case of pathat_win() without flags. */
  method PathatWin(path: string, present: string -> bool) returns (resolved: string)
    requires IsAbsolute(path)
    ensures resolved == Resolve(path)
  {
    var result := new NameiData(Rest(path), Root(path));
    var _ := result.VfsLookup(false, false, present);
    resolved := result.resolved;
    assert Rest(path)[0..|Rest(path)|] == Rest(path);
  }

  // ---------- printing ----------

  /** The index of the last dot, or -1. */
  function LastDot(s: string): (t: int)
    ensures -1 <= t < |s| && (t >= 0 ==> s[t] == '.')
    ensures forall k :: t < k < |s| ==> s[k] != '.'
  {
    if s == "" then -1
    else if s[|s| - 1] == '.' then |s| - 1
    else LastDot(s[..|s| - 1])
  }

  predicate IsLinkAt(s: string, t: int) {
    0 <= t && t + 4 <= |s| && s[t..t + 4] == ".lnk"
  }

  /** The last dot starts ".lnk". */
  predicate HasLink(s: string) {
    IsLinkAt(s, LastDot(s))
  }

  function ChopLink(s: string): string {
    if HasLink(s) then s[..LastDot(s)] else s
  }

  /** The loop of pathnp_posix(), with `room` for that many more characters. */
  function Printed(src: string, room: int): string {
    if src == "" || room - 1 < 1 then ""
    else (if src[0] == ':' then "" else if src[0] == '\\' then "/" else [src[0]]) + Printed(src[1..], room - 1)
  }

  function WithoutRoot(source: string): string {
    if StartsWith(source, PROCESS_PREFIX) then source[14..] else source
  }

  /** How the printed text starts: a mount point for a drive, /proc for a device, nothing
      for a path from the root, whose first character is skipped. */
  datatype Header = Header(text: string, skip: nat, used: int)

  function HeaderOf(src: string): (h: Header)
    requires src != ""
    ensures h.skip < |src| && '.' !in h.text
  {
    if At(src, 1) == ':' then Header("/mnt/", 0, 5)
    else if src[0] == '\\' then Header("/proc", 0, 5)
    else if At(src, 1) == '\\' then Header("", 1, 0)
    else Header("", 0, 0)
  }

  /** The printed text, before a ".lnk" is chopped. */
  function PathnpRaw(source: string, size: int): string
    requires WithoutRoot(source) != ""
  {
    var src := WithoutRoot(source);
    var h := HeaderOf(src);
    h.text + Printed(src[h.skip..], size - h.used)
  }

  function PathnpText(source: string, size: int): string
    requires WithoutRoot(source) != ""
  {
    ChopLink(PathnpRaw(source, size))
  }

  lemma LastDotOf(s: string, t: int)
    requires -1 <= t < |s| && (t >= 0 ==> s[t] == '.')
    requires forall k :: t < k < |s| ==> s[k] != '.'
    ensures LastDot(s) == t
  {
  }

  /** The loop of pathnp_posix(): `lastDot` is where the last dot was written. */
  method PrintChars(start: string, src: string, size: int) returns (dest: string, lastDot: int)
    requires IsString(src) && '.' !in start
    ensures dest == start + Printed(src, size)
    ensures lastDot == LastDot(dest)
  {
    dest, lastDot := start, -1;
    var room, i := size, 0;
    var c := At(src, i);
    while c != NUL
      invariant i <= |src| && c == At(src, i)
      invariant start + Printed(src, size) == dest + Printed(src[i..], room)
      invariant -1 <= lastDot < |dest| && (lastDot >= 0 ==> dest[lastDot] == '.')
      invariant forall k :: lastDot < k < |dest| ==> dest[k] != '.'
      decreases |src| - i
    {
      assert src[i..][1..] == src[i + 1..] && src[i..][0] == c;
      i := i + 1;
      room := room - 1;
      if room < 1 {
        break;
      }
      if c != ':' {
        if c == '\\' {
          c := '/';
        } else if c == '.' {
          lastDot := |dest|;
        }
        dest := dest + [c];
      }
      c := At(src, i);
    }
    LastDotOf(dest, lastDot);
  }

  /** pathnp_posix(); the source, less a process root, must have a first character and fit
      the local buffer.  `end` is the place of the terminator that the loop wrote. */
  method PathnpPosix(source: string, size: int) returns (dest: string, end: nat)
    requires IsString(source) && 1 <= |WithoutRoot(source)| < size <= PATH_MAX
    ensures dest == PathnpText(source, size) && end == |PathnpRaw(source, size)|
  {
    var src := source;
    if StartsWith(source, PROCESS_PREFIX) {
      src := source[14..];
    }
    var h := HeaderOf(src);
    var lastDot;
    dest, lastDot := PrintChars(h.text, src[h.skip..], size - h.used);
    end := |dest|;
    if IsLinkAt(dest, lastDot) {
      dest := dest[..lastDot];
    }
  }

  /** What becomes of a character on the way to a resolved path and back. */
  function Back(c: char): char {
    if c == '\\' then '/' else if c == ':' then '_' else c
  }

  function BackAll(s: string): (r: string)
    ensures |r| == |s| && forall i :: 0 <= i < |s| ==> r[i] == Back(s[i])
  {
    seq(|s|, i requires 0 <= i < |s| => Back(s[i]))
  }

  /** Without colons and with room, backslashes become slashes and nothing else changes. */
  lemma {:induction false} PrintedPlain(s: string, room: int)
    requires ':' !in s && |s| < room
    ensures Printed(s, room) == BackAll(s)
  {
    if s != "" {
      PrintedPlain(s[1..], room - 1);
      assert BackAll(s) == [Back(s[0])] + BackAll(s[1..]);
    }
  }

  lemma PrintedStep(c: char, s: string, room: int)
    requires room > 1
    ensures Printed([c] + s, room) == (if c == ':' then "" else if c == '\\' then "/" else [c]) + Printed(s, room - 1)
  {
    assert ([c] + s)[1..] == s;
  }

  lemma NoProcess(s: string)
    requires s != "" && s[0] != '\\'
    ensures WithoutRoot(s) == s
  {
    assert PROCESS_PREFIX[0] == '\\';
  }

  lemma RawIs(src: string, h: Header)
    requires src != "" && WithoutRoot(src) == src && HeaderOf(src) == h && h.skip == 0
    ensures PathnpRaw(src, PATH_MAX) == h.text + Printed(src, PATH_MAX - h.used)
  {
    assert src[0..] == src;
  }

  lemma DriveText(d: char, rest: string)
    requires d != '\\' && d != ':' && ':' !in rest && |rest| + 8 < PATH_MAX
    ensures Printed([d] + ([':'] + rest), PATH_MAX - 5) == [d] + BackAll(rest)
  {
    PrintedStep(d, [':'] + rest, PATH_MAX - 5);
    PrintedStep(':', rest, PATH_MAX - 6);
    PrintedPlain(rest, PATH_MAX - 7);
    assert "" + BackAll(rest) == BackAll(rest);
  }

  /** The printed text of a source that fits, before a link is chopped: a drive stands under
      /mnt, without its colon, and a device under /proc. */
  lemma DrivePrinted(d: char, rest: string, src: string)
    requires d != '\\' && d != ':' && ':' !in rest && |rest| + 8 < PATH_MAX && src == [d] + ([':'] + rest)
    ensures WithoutRoot(src) == src && PathnpRaw(src, PATH_MAX) == "/mnt/" + ([d] + BackAll(rest))
  {
    NoProcess(src);
    assert At(src, 1) == ':';
    RawIs(src, Header("/mnt/", 0, 5));
    DriveText(d, rest);
  }

  lemma DevicePrinted(rest: string, src: string)
    requires rest != "" && ':' !in rest && |rest| + 7 < PATH_MAX
    requires src == ['\\'] + rest && !StartsWith(src, PROCESS_PREFIX)
    ensures WithoutRoot(src) == src && PathnpRaw(src, PATH_MAX) == "/proc" + (['/'] + BackAll(rest))
  {
    assert At(src, 1) == rest[0] && src[0] == '\\';
    RawIs(src, Header("/proc", 0, 5));
    PrintedStep('\\', rest, PATH_MAX - 5);
    PrintedPlain(rest, PATH_MAX - 6);
  }

  /** With too little room, the text is cut: colons count as characters that are read. */
  lemma {:induction false} PrintedCut(s: string, room: int)
    ensures room <= 1 ==> Printed(s, room) == ""
    ensures 1 <= room <= |s| ==> Printed(s, room) == Printed(s[..room - 1], room)
    decreases |s|
  {
    if s != "" && room > 1 {
      PrintedCut(s[1..], room - 1);
      if room <= |s| {
        assert s[..room - 1][1..] == s[1..][..room - 2];
      }
    }
  }

  /** A final ".lnk" is chopped, and only that. */
  lemma LinkChopped(stem: string)
    ensures ChopLink(stem + ".lnk") == stem
    ensures '.' !in stem ==> ChopLink(stem) == stem
  {
    var s := stem + ".lnk";
    LastDotOf(s, |stem|);
    assert s[|stem|..|stem| + 4] == ".lnk" && s[..|stem|] == stem;
  }

  // ---------- the round trip ----------

  lemma {:induction false} PrintedTranslate(s: string, room: int)
    requires |s| < room
    ensures Printed(Translate(s), room) == BackAll(s)
  {
    if s != "" {
      assert Translate(s)[1..] == Translate(s[1..]);
      PrintedTranslate(s[1..], room - 1);
      assert BackAll(s) == [Back(s[0])] + BackAll(s[1..]);
    }
  }

  /** A path reads back as it was if and only if it is not below /proc, has neither a colon
      nor a backslash, and its last dot does not start ".lnk". */
  predicate ReadsBack(p: string) {
    !UnderProc(p) && ':' !in p && '\\' !in p && !HasLink(p)
  }

  lemma BackAllSame(s: string)
    ensures BackAll(s) == s <==> ':' !in s && '\\' !in s
  {
    if BackAll(s) == s {
      forall i | 0 <= i < |s| ensures s[i] != ':' && s[i] != '\\' {
        assert BackAll(s)[i] == s[i];
      }
    }
  }

  lemma RawOfPlain(p: string)
    requires IsAbsolute(p) && !UnderProc(p) && |Resolve(p)| < PATH_MAX
    ensures WithoutRoot(Resolve(p)) == Resolve(p)
    ensures PathnpRaw(Resolve(p), PATH_MAX) == BackAll(p)
  {
    var r := Resolve(p);
    assert r[0] == '.' && r[1] == '\\';
    assert PROCESS_PREFIX[0] == '\\' && |PROCESS_PREFIX| == 14;
    assert r[1..] == Translate(p);
    PrintedTranslate(p, PATH_MAX);
  }

  lemma TranslateSlashes(s: string)
    ensures Translate("//" + s) == "\\\\" + Translate(s)
  {
  }

  lemma WithoutPrefix(s: string)
    ensures WithoutRoot(PROCESS_PREFIX + s) == s
  {
  }

  lemma ResolveProc(p: string)
    requires IsAbsolute(p) && UnderProc(p)
    ensures Resolve(p) == PROCESS_PREFIX + ("\\\\" + Translate(p[6..]))
    ensures WithoutRoot(Resolve(p)) == "\\\\" + Translate(p[6..])
  {
    assert PROCESS_ROOT + "\\" == PROCESS_PREFIX + "\\\\";
    WithoutPrefix("\\\\" + Translate(p[6..]));
  }

  lemma RawOfProc(p: string)
    requires IsAbsolute(p) && UnderProc(p) && |Resolve(p)| < PATH_MAX
    ensures WithoutRoot(Resolve(p)) == "\\\\" + Translate(p[6..])
    ensures PathnpRaw(Resolve(p), PATH_MAX) == "/proc" + ("//" + BackAll(p[6..]))
  {
    ResolveProc(p);
    TranslateSlashes(p[6..]);
    var q := "//" + p[6..];
    assert |PROCESS_PREFIX| == 14;
    PrintedTranslate(q, PATH_MAX - 5);
    assert Translate(q)[0..] == Translate(q);
    assert BackAll(q) == "//" + BackAll(p[6..]);
  }

  /** Resolving an absolute path and printing the result gives the path back, exactly for
      the paths that satisfy `ReadsBack`. */
  lemma PathRoundTrip(p: string)
    requires IsAbsolute(p) && |Resolve(p)| < PATH_MAX
    ensures WithoutRoot(Resolve(p)) != "" && |WithoutRoot(Resolve(p))| < PATH_MAX
    ensures PathnpText(Resolve(p), PATH_MAX) == p <==> ReadsBack(p)
  {
    if UnderProc(p) {
      RawOfProc(p);
      assert |PathnpRaw(Resolve(p), PATH_MAX)| == |p| + 1;
    } else {
      RawOfPlain(p);
      BackAllSame(p);
    }
  }

  /** Below /proc one slash is doubled, and otherwise the same conditions apply. */
  lemma ProcPathDoubled(q: string)
    requires IsString(q) && |Resolve("/proc/" + q)| < PATH_MAX
    requires ':' !in q && '\\' !in q && !HasLink("/proc" + ("//" + q))
    ensures WithoutRoot(Resolve("/proc/" + q)) != ""
    ensures PathnpText(Resolve("/proc/" + q), PATH_MAX) == "/proc" + ("//" + q)
  {
    assert ("/proc/" + q)[6..] == q;
    RawOfProc("/proc/" + q);
    BackAllSame(q);
  }
}
