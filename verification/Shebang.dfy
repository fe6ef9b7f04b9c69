/** The splitter for the first line of a script (argv_posix in libposix/sys/syscall.c).
    It cuts a character buffer into strings in place and collects where they start. */
module Shebang {
  import opened Common

  const MAXDEPTH := 16

  predicate IsMark(c: char) {
    c == '#' || c == '!'
  }

  predicate EndsLine(c: char) {
    c == NUL || c == '\r' || c == '\n'
  }

  /** Where the text of the line ends: at its terminator, or after `size` characters. */
  function TextEnd(s: seq<char>, size: nat, i: nat): (e: nat)
    requires i <= size && i <= |s|
    ensures i <= e <= size && e <= |s|
    ensures e < size && e < |s| ==> EndsLine(s[e])
    ensures forall k :: i <= k < e ==> !EndsLine(s[k])
    decreases |s| - i
  {
    if i == size || i == |s| || EndsLine(s[i]) then i else TextEnd(s, size, i + 1)
  }

  // ---------- the words of a text ----------

  function FirstSpace(t: string): (k: nat)
    ensures k <= |t| && (k < |t| ==> t[k] == ' ')
  {
    if t == "" || t[0] == ' ' then 0 else 1 + FirstSpace(t[1..])
  }

  predicate NoSpace(t: string, k: nat)
    requires k <= |t|
  {
    forall i :: 0 <= i < k ==> t[i] != ' '
  }

  lemma {:induction false} FirstSpaceIs(t: string, k: nat)
    requires k <= |t| && (k < |t| ==> t[k] == ' ') && NoSpace(t, k)
    ensures FirstSpace(t) == k
  {
    if k > 0 {
      assert forall i :: 0 <= i < k - 1 ==> t[1..][i] == t[i + 1];
      FirstSpaceIs(t[1..], k - 1);
    }
  }

  lemma {:induction false} NoSpaceBefore(t: string)
    ensures NoSpace(t, FirstSpace(t))
  {
    if t != "" && t[0] != ' ' {
      NoSpaceBefore(t[1..]);
      forall i | 0 <= i < FirstSpace(t) ensures t[i] != ' ' {
        assert i > 0 ==> t[1..][i - 1] == t[i];
      }
    }
  }

  /** The part of a word behind its last '#' or '!'. */
  function AfterMark(w: string): string {
    if w == "" || IsMark(w[|w| - 1]) then "" else AfterMark(w[..|w| - 1]) + [w[|w| - 1]]
  }

  function NonEmpty(w: string): seq<string> {
    if w == "" then [] else [w]
  }

  /** The non-empty words between spaces. */
  function Words(t: string): seq<string>
    decreases |t|
  {
    var k := FirstSpace(t);
    NonEmpty(t[..k]) + if k == |t| then [] else Words(t[k + 1..])
  }

  /** The arguments that a text stands for: the words, each cut at its marks, without the
      empty ones but for the last. */
  function Args(t: string): (r: seq<string>)
    ensures r != []
    decreases |t|
  {
    var k := FirstSpace(t);
    if k == |t| then [AfterMark(t)] else NonEmpty(AfterMark(t[..k])) + Args(t[k + 1..])
  }

  function Last(a: seq<string>): string
    requires a != []
  {
    a[|a| - 1]
  }

  function Front(a: seq<string>): seq<string>
    requires a != []
  {
    a[..|a| - 1]
  }

  /** What one more character does to the arguments. */
  function Extended(a: seq<string>, c: char): seq<string>
    requires a != []
  {
    if c == ' ' then (if Last(a) == "" then a else a + [""])
    else if IsMark(c) then Front(a) + [""]
    else Front(a) + [Last(a) + [c]]
  }

  lemma ExtendedPrefix(p: seq<string>, a: seq<string>, c: char)
    requires a != []
    ensures Extended(p + a, c) == p + Extended(a, c)
  {
  }

  lemma ArgsOfWord(t: string)
    requires FirstSpace(t) == |t|
    ensures Args(t) == [AfterMark(t)]
  {
  }

  lemma ArgsOfWords(t: string, w: string, rest: string)
    requires t == w + [' '] + rest && NoSpace(w, |w|)
    ensures FirstSpace(t) == |w| && Args(t) == NonEmpty(AfterMark(w)) + Args(rest)
  {
    FirstSpaceIs(t, |w|);
    assert t[..|w|] == w && t[|w| + 1..] == rest;
  }

  lemma ArgsNextSpace(t: string)
    requires FirstSpace(t) == |t|
    ensures Args(t + [' ']) == NonEmpty(AfterMark(t)) + [""]
  {
    NoSpaceBefore(t);
    assert t + [' '] == t + [' '] + "";
    ArgsOfWords(t + [' '], t, "");
    ArgsOfWord("");
  }

  lemma NoSpaceNext(t: string, c: char)
    requires NoSpace(t, |t|) && c != ' '
    ensures FirstSpace(t + [c]) == |t| + 1
  {
    FirstSpaceIs(t + [c], |t| + 1);
  }

  lemma AfterMarkNext(t: string, c: char)
    ensures AfterMark(t + [c]) == if IsMark(c) then "" else AfterMark(t) + [c]
  {
    assert (t + [c])[..|t|] == t;
  }

  lemma ArgsNextChar(t: string, c: char)
    requires FirstSpace(t) == |t| && c != ' '
    ensures Args(t + [c]) == [if IsMark(c) then "" else AfterMark(t) + [c]]
  {
    NoSpaceBefore(t);
    NoSpaceNext(t, c);
    ArgsOfWord(t + [c]);
    AfterMarkNext(t, c);
  }

  lemma ArgsNextInWord(t: string, c: char)
    requires FirstSpace(t) == |t|
    ensures Args(t + [c]) == Extended(Args(t), c)
  {
    ArgsOfWord(t);
    if c == ' ' {
      ArgsNextSpace(t);
    } else {
      ArgsNextChar(t, c);
    }
  }

  lemma ArgsNextBehind(t: string, w: string, rest: string, c: char)
    requires t == w + [' '] + rest && NoSpace(w, |w|) && Args(rest + [c]) == Extended(Args(rest), c)
    ensures Args(t + [c]) == Extended(Args(t), c)
  {
    ArgsOfWords(t, w, rest);
    assert t + [c] == w + [' '] + (rest + [c]);
    ArgsOfWords(t + [c], w, rest + [c]);
    ExtendedPrefix(NonEmpty(AfterMark(w)), Args(rest), c);
  }

  lemma {:induction false} ArgsNext(t: string, c: char)
    ensures Args(t + [c]) == Extended(Args(t), c)
    decreases |t|
  {
    var k := FirstSpace(t);
    NoSpaceBefore(t);
    if k < |t| {
      ArgsNext(t[k + 1..], c);
      ArgsNextBehind(t, t[..k], t[k + 1..], c);
    } else {
      ArgsNextInWord(t, c);
    }
  }

  /** Where the splitting stops: at a space that comes after 16 complete arguments. */
  function Cut(t: string, i: nat): (e: nat)
    requires i <= |t|
    ensures i <= e <= |t|
    ensures e < |t| ==> t[e] == ' ' && |Args(t[..e])| > MAXDEPTH
    decreases |t| - i
  {
    if i == |t| then i
    else if t[i] == ' ' && |Args(t[..i])| > MAXDEPTH then i
    else Cut(t, i + 1)
  }

  /** The string `w` stands at offset `o` of the buffer, with its terminator. */
  ghost predicate StringAt(b: seq<char>, o: nat, w: string) {
    o + |w| < |b| && b[o..o + |w|] == w && b[o + |w|] == NUL && NUL !in w
  }

  /** A string that ends before `i`. */
  ghost predicate Placed(b: seq<char>, o: nat, w: string, i: nat) {
    o + |w| < i && StringAt(b, o, w)
  }

  /** The string from `start` to `i` is still open. */
  ghost predicate Open(b: seq<char>, start: nat, i: nat, w: string) {
    start + |w| == i < |b| && b[start..i] == w && NUL !in w
  }

  /** The buffer is split up to `i` into the strings at `argv` and an open one from `start`. */
  ghost predicate SplitTo(b: seq<char>, argv: seq<nat>, start: nat, i: nat, args: seq<string>) {
    && |args| == |argv| + 1
    && Open(b, start, i, Last(args))
    && forall k :: 0 <= k < |argv| ==> Placed(b, argv[k], args[k], i)
  }

  /** Ending a string at `i` leaves the earlier ones as they are. */
  lemma PlacedKept(b: seq<char>, o: nat, w: string, i: nat)
    requires Placed(b, o, w, i) && i < |b|
    ensures Placed(b[i := NUL], o, w, i + 1)
  {
    assert b[i := NUL][o..o + |w|] == b[o..o + |w|];
  }

  lemma OpenClosed(b: seq<char>, start: nat, i: nat, w: string)
    requires Open(b, start, i, w)
    ensures Placed(b[i := NUL], start, w, i + 1)
  {
    assert b[i := NUL][start..i] == b[start..i];
  }

  lemma SplitAtMark(b: seq<char>, argv: seq<nat>, start: nat, i: nat, args: seq<string>)
    requires SplitTo(b, argv, start, i, args) && i + 1 < |b| && IsMark(b[i])
    ensures SplitTo(b, argv, i + 1, i + 1, Extended(args, b[i]))
  {
  }

  lemma SplitAtChar(b: seq<char>, argv: seq<nat>, start: nat, i: nat, args: seq<string>)
    requires SplitTo(b, argv, start, i, args) && i + 1 < |b| && !IsMark(b[i]) && b[i] != ' ' && b[i] != NUL
    ensures SplitTo(b, argv, start, i + 1, Extended(args, b[i]))
  {
    assert b[start..i + 1] == b[start..i] + [b[i]];
  }

  lemma SplitDone(b: seq<char>, argv: seq<nat>, start: nat, i: nat, args: seq<string>)
    requires SplitTo(b, argv, start, i, args)
    ensures forall k :: 0 <= k < |argv| + 1 ==> Placed(b[i := NUL], (argv + [start])[k], args[k], i + 1)
  {
    OpenClosed(b, start, i, Last(args));
    forall k | 0 <= k < |argv| ensures Placed(b[i := NUL], argv[k], args[k], i + 1) {
      PlacedKept(b, argv[k], args[k], i);
    }
  }

  /** A space closes the open string. */
  lemma SplitAtSpace(b: seq<char>, argv: seq<nat>, start: nat, i: nat, args: seq<string>)
    requires SplitTo(b, argv, start, i, args) && i + 1 < |b| && Last(args) != ""
    ensures SplitTo(b[i := NUL], argv + [start], i + 1, i + 1, args + [""])
  {
    SplitDone(b, argv, start, i, args);
  }

  /** An empty string is dropped. */
  lemma SplitAtSpaceAgain(b: seq<char>, argv: seq<nat>, start: nat, i: nat, args: seq<string>)
    requires SplitTo(b, argv, start, i, args) && i + 1 < |b| && Last(args) == ""
    ensures SplitTo(b[i := NUL], argv, i + 1, i + 1, args)
  {
    forall k | 0 <= k < |argv| ensures Placed(b[i := NUL], argv[k], args[k], i + 1) {
      PlacedKept(b, argv[k], args[k], i);
    }
  }

  lemma FirstOfOpen(b: seq<char>, start: nat, i: nat, w: string)
    requires Open(b, start, i, w)
    ensures b[i := NUL][start] == NUL <==> w == ""
  {
    assert w != "" ==> b[start..i][0] == b[start] == w[0];
  }

  lemma ArgsUpTo(text: string, i: nat)
    requires i < |text|
    ensures Args(text[..i + 1]) == Extended(Args(text[..i]), text[i])
  {
    assert text[..i + 1] == text[..i] + [text[i]];
    ArgsNext(text[..i], text[i]);
  }

  /** A character that is no space. */
  lemma ScanChar(b: seq<char>, text: string, argv: seq<nat>, start: nat, i: nat)
    requires i < |text| && i + 1 < |b| && text[i] == b[i] && b[i] != NUL && b[i] != ' '
    requires SplitTo(b, argv, start, i, Args(text[..i]))
    ensures SplitTo(b, argv, if IsMark(b[i]) then i + 1 else start, i + 1, Args(text[..i + 1]))
  {
    ArgsUpTo(text, i);
    if IsMark(b[i]) {
      SplitAtMark(b, argv, start, i, Args(text[..i]));
    } else {
      SplitAtChar(b, argv, start, i, Args(text[..i]));
    }
  }

  /** The branch of argv_posix() for a space. */
  method CloseWord(buf: array<char>, done: seq<nat>, start: nat, i: nat, ghost text: string)
    returns (argv: seq<nat>)
    requires i < |text| && text[i] == ' ' && i + 1 < buf.Length
    requires SplitTo(buf[..], done, start, i, Args(text[..i]))
    modifies buf
    ensures SplitTo(buf[..], argv, i + 1, i + 1, Args(text[..i + 1]))
    ensures forall j {:trigger buf[j]} :: i < j < buf.Length ==> buf[j] == old(buf[j])
  {
    ghost var b, args := buf[..], Args(text[..i]);
    ArgsUpTo(text, i);
    FirstOfOpen(b, start, i, Last(args));
    argv := done;
    buf[i] := NUL;
    assert buf[..] == b[i := NUL];
    if buf[start] != NUL {
      argv := argv + [start];
      SplitAtSpace(b, done, start, i, args);
    } else {
      SplitAtSpaceAgain(b, done, start, i, args);
    }
  }

  /** The text of a line, up to its end and the limit on its words. */
  function Text(line: seq<char>, size: nat): string {
    var text := line[..TextEnd(line, size, 0)];
    text[..Cut(text, 0)]
  }

  /** One character of the line that does not stop the loop of argv_posix(). */
  method ScanStep(buf: array<char>, done: seq<nat>, from: nat, i: nat, ghost text: string)
    returns (argv: seq<nat>, start: nat)
    requires i < |text| && i + 1 < buf.Length && buf[i] == text[i] != NUL
    requires SplitTo(buf[..], done, from, i, Args(text[..i]))
    modifies buf
    ensures SplitTo(buf[..], argv, start, i + 1, Args(text[..i + 1]))
    ensures forall j {:trigger buf[j]} :: i < j < buf.Length ==> buf[j] == old(buf[j])
  {
    var c := buf[i];
    argv, start := done, from;
    if c != ' ' {
      ScanChar(buf[..], text, argv, start, i);
      if IsMark(c) {
        start := i + 1;
      }
    } else {
      argv := CloseWord(buf, argv, start, i, text);
      start := i + 1;
    }
  }

  /** The text that a buffer of `size` characters starts with. */
  ghost predicate IsText(b: seq<char>, size: nat, text: string) {
    && |text| <= size && |text| <= |b| && text == b[..|text|]
    && (|text| < size && |text| < |b| ==> EndsLine(b[|text|]))
    && forall k :: 0 <= k < |text| ==> !EndsLine(text[k])
  }

  lemma CutStep(t: string, i: nat)
    requires i <= |t|
    ensures i < |t| && !(t[i] == ' ' && |Args(t[..i])| > MAXDEPTH) ==> Cut(t, i) == Cut(t, i + 1)
    ensures i == |t| || (t[i] == ' ' && |Args(t[..i])| > MAXDEPTH) ==> Cut(t, i) == i
  {
  }

  /** The state of the loop at `i`, in a buffer that was `line`. */
  ghost predicate Scanned(b: seq<char>, line: seq<char>, text: string, argv: seq<nat>, start: nat, i: nat) {
    && |b| == |line| && i <= |text| && Cut(text, i) == Cut(text, 0) < |b|
    && (forall j {:trigger b[j]} :: i <= j < |b| ==> b[j] == line[j])
    && SplitTo(b, argv, start, i, Args(text[..i]))
  }

  predicate GoesOn(b: seq<char>, size: nat, count: nat, i: nat)
    requires i < |b|
  {
    i < size && !EndsLine(b[i]) && !(b[i] == ' ' && count >= MAXDEPTH)
  }

  lemma WithinText(line: seq<char>, size: nat, text: string, i: nat)
    requires IsText(line, size, text) && i <= |text| && i < |line|
    ensures i < size && !EndsLine(line[i]) <==> i < |text|
    ensures i < |text| ==> line[i] == text[i]
  {
  }

  lemma CutsAt(t: string, i: nat)
    requires i <= |t| && Cut(t, i) == Cut(t, 0)
    ensures i < Cut(t, 0) <==> i < |t| && !(t[i] == ' ' && |Args(t[..i])| > MAXDEPTH)
    ensures i < Cut(t, 0) ==> Cut(t, i + 1) == Cut(t, 0)
  {
    CutStep(t, i);
  }

  /** The loop stops where the text is cut. */
  lemma StopsAtCut(b: seq<char>, line: seq<char>, size: nat, text: string, argv: seq<nat>, start: nat, i: nat)
    requires IsText(line, size, text) && Scanned(b, line, text, argv, start, i)
    ensures i < |b| && (GoesOn(b, size, |argv|, i) <==> i < Cut(text, 0))
    ensures i < Cut(text, 0) ==> b[i] == text[i] && Cut(text, i + 1) == Cut(text, 0)
  {
    CutsAt(text, i);
    WithinText(line, size, text, i);
    assert b[i] == line[i] && |Args(text[..i])| == |argv| + 1;
  }

  /** One turn of the loop. */
  method ScanNext(buf: array<char>, done: seq<nat>, from: nat, i: nat, ghost line: seq<char>, ghost size: nat, ghost text: string)
    returns (argv: seq<nat>, start: nat)
    requires IsText(line, size, text) && Scanned(buf[..], line, text, done, from, i) && i < Cut(text, 0)
    modifies buf
    ensures Scanned(buf[..], line, text, argv, start, i + 1)
  {
    StopsAtCut(buf[..], line, size, text, done, from, i);
    argv, start := ScanStep(buf, done, from, i, text);
  }

  lemma ScanStarts(line: seq<char>, text: string)
    requires Cut(text, 0) < |line|
    ensures Scanned(line, line, text, [], 0, 0)
  {
    assert text[..0] == "" && Args("") == [""];
  }

  /** The loop of argv_posix(). */
  method Scan(buf: array<char>, size: nat, ghost text: string) returns (argv: seq<nat>, i: nat, start: nat)
    requires IsText(buf[..], size, text) && Cut(text, 0) < buf.Length
    modifies buf
    ensures i == Cut(text, 0) && Scanned(buf[..], old(buf[..]), text, argv, start, i)
  {
    ghost var line := buf[..];
    argv, i, start := [], 0, 0;
    ScanStarts(line, text);
    StopsAtCut(buf[..], line, size, text, argv, start, i);
    while i < size && !EndsLine(buf[i]) && !(buf[i] == ' ' && |argv| >= MAXDEPTH)
      invariant Scanned(buf[..], line, text, argv, start, i)
      invariant i < buf.Length && (GoesOn(buf[..], size, |argv|, i) <==> i < Cut(text, 0))
    {
      argv, start := ScanNext(buf, argv, start, i, line, size, text);
      i := i + 1;
      StopsAtCut(buf[..], line, size, text, argv, start, i);
    }
  }

  lemma TextIs(line: seq<char>, size: nat)
    ensures IsText(line, size, line[..TextEnd(line, size, 0)])
  {
  }

  /** The end of argv_posix(): the last string is terminated and counted, empty or not. */
  method Finish(buf: array<char>, done: seq<nat>, start: nat, i: nat, ghost args: seq<string>) returns (argv: seq<nat>)
    requires SplitTo(buf[..], done, start, i, args)
    modifies buf
    ensures |argv| == |args|
    ensures forall k :: 0 <= k < |argv| ==> Placed(buf[..], argv[k], args[k], i + 1)
    ensures forall j {:trigger buf[j]} :: i < j < buf.Length ==> buf[j] == old(buf[j])
  {
    ghost var b := buf[..];
    SplitDone(b, done, start, i, args);
    buf[i] := NUL;
    assert buf[..] == b[i := NUL];
    argv := done + [start];
  }

  /** argv_posix(): returns the number of arguments, and the vector of their offsets with the
      null pointer that ends it.  The buffer has a place for the last terminator. */
  method ArgvPosix(buf: array<char>, size: nat) returns (count: nat, argv: seq<Option<nat>>)
    requires |Text(buf[..], size)| < buf.Length
    modifies buf
    ensures count == |Args(Text(old(buf[..]), size))| && |argv| == count + 1 && argv[count] == None
    ensures forall k :: 0 <= k < count ==>
              argv[k].Some? && Placed(buf[..], argv[k].value, Args(Text(old(buf[..]), size))[k], |Text(old(buf[..]), size)| + 1)
    ensures forall j {:trigger buf[j]} :: |Text(old(buf[..]), size)| < j < buf.Length ==> buf[j] == old(buf[j])
  {
    ghost var line := buf[..];
    ghost var text := line[..TextEnd(line, size, 0)];
    TextIs(line, size);
    var offsets, i, start := Scan(buf, size, text);
    assert text[..i] == Text(line, size);
    assert forall j {:trigger buf[j]} :: i <= j < buf.Length ==> buf[j] == line[j];
    offsets := Finish(buf, offsets, start, i, Args(text[..i]));
    count := |offsets|;
    argv := seq(count, k requires 0 <= k < |offsets| => Some(offsets[k])) + [None];
  }

  lemma {:induction false} CutIsFirst(t: string, i: nat, k: nat)
    requires i <= k < |t| && t[k] == ' ' && |Args(t[..k])| > MAXDEPTH
    ensures Cut(t, i) <= k
    decreases k - i
  {
    if i < k {
      CutIsFirst(t, i + 1, k);
    }
  }

  /** When a line that fills its buffer leaves a place for the terminator: a character ends the
      line, or a space comes after 16 complete arguments. */
  lemma TerminatorFits(line: seq<char>)
    ensures |Text(line, |line|)| < |line| <==>
            exists k :: 0 <= k < |line| && (EndsLine(line[k]) || (line[k] == ' ' && |Args(line[..k])| > MAXDEPTH))
  {
    var end := TextEnd(line, |line|, 0);
    var cut := Cut(line[..end], 0);
    if cut < end {
      assert line[..end][..cut] == line[..cut] && line[..end][cut] == line[cut];
    } else if end == |line| {
      assert line[..end] == line;
      forall k | 0 <= k < |line| ensures !(line[k] == ' ' && |Args(line[..k])| > MAXDEPTH) {
        if line[k] == ' ' && |Args(line[..k])| > MAXDEPTH {
          CutIsFirst(line, 0, k);
        }
      }
    }
  }

  lemma {:induction false} CutBound(t: string, i: nat)
    requires i <= |t| && |Args(t[..i])| <= MAXDEPTH + 1
    ensures |Args(t[..Cut(t, i)])| <= MAXDEPTH + 1
    decreases |t| - i
  {
    CutStep(t, i);
    if i < |t| && !(t[i] == ' ' && |Args(t[..i])| > MAXDEPTH) {
      ArgsUpTo(t, i);
      CutBound(t, i + 1);
    }
  }

  lemma ExtendedGrows(a: seq<string>, c: char)
    requires a != []
    ensures |a| <= |Extended(a, c)|
  {
  }

  /** Arguments never get fewer as the text grows. */
  lemma {:induction false} ArgsGrow(t: string, rest: string)
    ensures |Args(t)| <= |Args(t + rest)|
    decreases |rest|
  {
    if rest == "" {
      assert t + rest == t;
    } else {
      ArgsNext(t, rest[0]);
      ExtendedGrows(Args(t), rest[0]);
      ArgsGrow(t + [rest[0]], rest[1..]);
      assert t + [rest[0]] + rest[1..] == t + rest;
    }
  }

  lemma CutGrows(t: string)
    ensures |Args(t[..Cut(t, 0)])| <= |Args(t)|
    ensures |Args(t)| <= MAXDEPTH ==> Cut(t, 0) == |t|
  {
    var cut := Cut(t, 0);
    ArgsGrow(t[..cut], t[cut..]);
    assert t[..cut] + t[cut..] == t;
  }

  /** There are never more than 17 arguments, and a vector of 17 places, its end included,
      holds them if and only if the whole text has at most 16. */
  lemma VectorFits(t: string)
    ensures |Args(t[..Cut(t, 0)])| <= MAXDEPTH + 1
    ensures |Args(t[..Cut(t, 0)])| + 1 <= MAXDEPTH + 1 <==> |Args(t)| <= MAXDEPTH
  {
    assert t[..0] == "" && Args("") == [""];
    CutBound(t, 0);
    CutGrows(t);
    assert t[..|t|] == t;
  }

  // ---------- which lines are split into their words ----------

  predicate NoMark(t: string) {
    forall i :: 0 <= i < |t| ==> !IsMark(t[i])
  }

  lemma {:induction false} AfterMarkOfPlain(w: string)
    requires NoMark(w)
    ensures AfterMark(w) == w
  {
    if w != "" {
      AfterMarkOfPlain(w[..|w| - 1]);
    }
  }

  /** A mark in front of a word is no part of it. */
  lemma {:induction false} AfterMarkSkips(p: char, w: string)
    requires IsMark(p)
    ensures AfterMark([p] + w) == AfterMark(w)
  {
    if w == "" {
      assert [p] + w == [p];
    } else {
      var n := |w| - 1;
      assert ([p] + w)[..n + 1] == [p] + w[..n];
      AfterMarkSkips(p, w[..n]);
    }
  }

  /** The first word of a text with a space, and what follows the space. */
  lemma SplitFirst(t: string) returns (w: string, rest: string)
    requires FirstSpace(t) < |t|
    ensures t == w + [' '] + rest && NoSpace(w, |w|) && |w| == FirstSpace(t)
    ensures NoMark(t) ==> NoMark(w) && NoMark(rest)
  {
    NoSpaceBefore(t);
    w, rest := t[..FirstSpace(t)], t[FirstSpace(t) + 1..];
  }

  lemma MarkedWord(p: char, w: string, rest: string)
    requires IsMark(p) && NoSpace(w, |w|)
    ensures [p] + (w + [' '] + rest) == ([p] + w) + [' '] + rest
    ensures NoSpace([p] + w, |[p] + w|)
  {
  }

  lemma ArgsSkipMarkInWords(p: char, t: string, w: string, rest: string)
    requires IsMark(p) && t == w + [' '] + rest && NoSpace(w, |w|)
    ensures Args([p] + t) == Args(t)
  {
    MarkedWord(p, w, rest);
    ArgsOfWords(t, w, rest);
    ArgsOfWords([p] + t, [p] + w, rest);
    AfterMarkSkips(p, w);
  }

  lemma ArgsSkipMark(p: char, t: string)
    requires IsMark(p)
    ensures Args([p] + t) == Args(t)
  {
    if FirstSpace(t) < |t| {
      var w, rest := SplitFirst(t);
      ArgsSkipMarkInWords(p, t, w, rest);
    } else {
      NoSpaceBefore(t);
      FirstSpaceIs([p] + t, |t| + 1);
      ArgsOfWord(t);
      ArgsOfWord([p] + t);
      AfterMarkSkips(p, t);
    }
  }

  /** The text ends within a word. */
  predicate EndsInWord(t: string) {
    t != "" && t[|t| - 1] != ' '
  }

  /** What follows the words: an empty argument if the text does not end in a word. */
  function Trail(t: string): seq<string> {
    if EndsInWord(t) then [] else [""]
  }

  lemma WordsOfWords(t: string, w: string, rest: string)
    requires t == w + [' '] + rest && FirstSpace(t) == |w|
    ensures Words(t) == NonEmpty(w) + Words(rest) && Trail(t) == Trail(rest)
  {
    assert t[..|w|] == w && t[|w| + 1..] == rest;
  }

  lemma PlainJoin<T>(args: seq<T>, words: seq<T>, trail: seq<T>, first: seq<T>, args2: seq<T>, words2: seq<T>, trail2: seq<T>)
    requires args == first + args2 && words == first + words2 && trail == trail2 && args2 == words2 + trail2
    ensures args == words + trail
  {
  }

  lemma PlainStep(t: string, w: string, rest: string)
    requires t == w + [' '] + rest && NoSpace(w, |w|) && |w| == FirstSpace(t) && NoMark(w)
    requires Args(rest) == Words(rest) + Trail(rest)
    ensures Args(t) == Words(t) + Trail(t)
  {
    ArgsOfWords(t, w, rest);
    WordsOfWords(t, w, rest);
    AfterMarkOfPlain(w);
    PlainJoin(Args(t), Words(t), Trail(t), NonEmpty(w), Args(rest), Words(rest), Trail(rest));
  }

  lemma WordsOfWord(t: string)
    requires FirstSpace(t) == |t|
    ensures Words(t) == NonEmpty(t) && Trail(t) == if t == "" then [""] else []
  {
    NoSpaceBefore(t);
    assert t[..|t|] == t;
  }

  lemma PlainWord(t: string)
    requires NoMark(t) && FirstSpace(t) == |t|
    ensures Args(t) == Words(t) + Trail(t)
  {
    ArgsOfWord(t);
    AfterMarkOfPlain(t);
    WordsOfWord(t);
  }

  /** Without marks, the arguments are the words, and an empty one if the text ends in a
      space or has no character. */
  lemma {:induction false} ArgsOfPlain(t: string)
    requires NoMark(t)
    ensures Args(t) == Words(t) + Trail(t)
    decreases |t|
  {
    if FirstSpace(t) < |t| {
      var w, rest := SplitFirst(t);
      ArgsOfPlain(rest);
      PlainStep(t, w, rest);
    } else {
      PlainWord(t);
    }
  }

  /** The number of characters in some strings. */
  function Total(a: seq<string>): nat {
    if a == [] then 0 else |a[0]| + Total(a[1..])
  }

  lemma {:induction false} TotalJoin(a: seq<string>, b: seq<string>)
    ensures Total(a + b) == Total(a) + Total(b)
  {
    if a == [] {
      assert a + b == b;
    } else {
      assert (a + b)[1..] == a[1..] + b;
      TotalJoin(a[1..], b);
    }
  }

  lemma TotalOfOne(w: string)
    ensures Total(NonEmpty(w)) == |w| && Total([w]) == |w|
  {
  }

  /** A word loses characters exactly if it has a mark. */
  lemma {:induction false} AfterMarkShorter(w: string)
    ensures |AfterMark(w)| <= |w|
    ensures |AfterMark(w)| == |w| <==> NoMark(w)
  {
    if w != "" {
      AfterMarkShorter(w[..|w| - 1]);
      assert NoMark(w) <==> NoMark(w[..|w| - 1]) && !IsMark(w[|w| - 1]);
    }
  }

  /** A text loses characters exactly if it has a mark. */
  lemma {:induction false} ArgsShorter(t: string)
    ensures Total(Args(t)) <= Total(Words(t))
    ensures Total(Args(t)) == Total(Words(t)) <==> NoMark(t)
    decreases |t|
  {
    if FirstSpace(t) < |t| {
      var w, rest := SplitFirst(t);
      ArgsShorter(rest);
      ArgsOfWords(t, w, rest);
      WordsOfWords(t, w, rest);
      TotalJoin(NonEmpty(AfterMark(w)), Args(rest));
      TotalJoin(NonEmpty(w), Words(rest));
      TotalOfOne(AfterMark(w));
      TotalOfOne(w);
      AfterMarkShorter(w);
      assert NoMark(w) && NoMark(rest) ==> NoMark(t);
    } else {
      ArgsOfWord(t);
      WordsOfWord(t);
      TotalOfOne(AfterMark(t));
      TotalOfOne(t);
      AfterMarkShorter(t);
    }
  }

  /** The arguments of a text are its words if and only if it ends in a word and has no mark. */
  lemma ArgsAreWords(t: string)
    ensures Args(t) == Words(t) <==> EndsInWord(t) && NoMark(t)
  {
    ArgsShorter(t);
    if NoMark(t) {
      ArgsOfPlain(t);
      assert |Words(t) + Trail(t)| == |Words(t)| + |Trail(t)|;
    }
  }

  predicate Blank(t: string) {
    forall i :: 0 <= i < |t| ==> t[i] == ' '
  }

  lemma BlankStep(w: string, rest: string)
    requires NoSpace(w, |w|)
    ensures Blank(w + [' '] + rest) <==> w == "" && Blank(rest)
  {
    var t := w + [' '] + rest;
    assert w == "" || t[0] == w[0];
    if Blank(t) {
      forall i | 0 <= i < |rest| ensures rest[i] == ' ' {
        assert rest[i] == t[|w| + 1 + i];
      }
    }
  }

  lemma {:induction false} BlankWords(t: string)
    ensures Words(t) == [] <==> Blank(t)
    ensures Words(t) != [] ==> Total(Words(t)) > 0
    decreases |t|
  {
    if FirstSpace(t) < |t| {
      var w, rest := SplitFirst(t);
      WordsOfWords(t, w, rest);
      BlankWords(rest);
      TotalJoin(NonEmpty(w), Words(rest));
      TotalOfOne(w);
      BlankStep(w, rest);
    } else {
      WordsOfWord(t);
      NoSpaceBefore(t);
      TotalOfOne(t);
    }
  }

  lemma Regroup<T>(a: seq<T>, b: seq<T>, c: seq<T>, d: seq<T>)
    ensures a + b + c + d == a + b + (c + d)
    ensures a + (b + c) == a + b + c
  {
  }

  lemma SpaceAt(w: string, rest: string)
    requires NoSpace(w, |w|)
    ensures FirstSpace(w + [' '] + rest) == |w|
  {
    FirstSpaceIs(w + [' '] + rest, |w|);
  }

  lemma WordsSplit(w: string, rest: string)
    requires NoSpace(w, |w|)
    ensures Words(w + [' '] + rest) == NonEmpty(w) + Words(rest)
  {
    SpaceAt(w, rest);
    WordsOfWords(w + [' '] + rest, w, rest);
  }

  lemma WordsJoinStep(t: string, w: string, rest: string, more: string)
    requires t == w + [' '] + rest && NoSpace(w, |w|)
    requires Words(rest + more) == Words(rest) + Words(more)
    ensures Words(t + more) == Words(t) + Words(more)
  {
    WordsSplit(w, rest);
    WordsSplit(w, rest + more);
    Regroup(w, [' '], rest, more);
    Regroup(NonEmpty(w), Words(rest), Words(more), []);
  }

  lemma NothingBefore(a: seq<string>)
    ensures NonEmpty("") + a == a
  {
  }

  lemma WordsJoinLast(w: string, rest: string)
    requires NoSpace(w, |w|)
    ensures Words(w + ([' '] + rest)) == Words(w) + Words([' '] + rest)
  {
    FirstSpaceIs(w, |w|);
    WordsOfWord(w);
    WordsSplit("", rest);
    WordsSplit(w, rest);
    Regroup(w, [' '], rest, []);
    Regroup("", [' '], rest, []);
    NothingBefore(Words(rest));
  }

  /** A space between two texts separates their words. */
  lemma {:induction false} WordsJoin(t: string, more: string)
    requires more != "" ==> more[0] == ' '
    ensures Words(t + more) == Words(t) + Words(more)
    decreases |t|
  {
    if more == "" {
      assert t + more == t && Words(more) == [];
    } else if FirstSpace(t) < |t| {
      var w, rest := SplitFirst(t);
      WordsJoin(rest, more);
      WordsJoinStep(t, w, rest, more);
    } else {
      NoSpaceBefore(t);
      WordsJoinLast(t, more[1..]);
      assert more == [' '] + more[1..];
    }
  }

  lemma ArgsOfLine(body: string)
    ensures Args("#!" + body) == Args(body)
  {
    ArgsSkipMark('!', body);
    ArgsSkipMark('#', ['!'] + body);
    assert "#!" + body == ['#'] + (['!'] + body);
  }

  /** The body of a line is cut no earlier than behind its two marks. */
  lemma CutBehindMarks(body: string)
    ensures Cut("#!" + body, 0) >= 2
  {
  }

  /** Every line "#!" + body is split into exactly the words of its body, if and only if what
      is kept of the body ends within a word and has no further mark, and only spaces are
      cut off. */
  lemma LineIsItsWords(body: string)
    ensures var t := "#!" + body;
            var cut := Cut(t, 0);
            Args(t[..cut]) == Words(body) <==>
            2 <= cut && EndsInWord(t[2..cut]) && NoMark(t[2..cut]) && Blank(t[cut..])
  {
    var t := "#!" + body;
    var cut := Cut(t, 0);
    CutBehindMarks(body);
    var kept, more := t[2..cut], t[cut..];
    assert t[..cut] == "#!" + kept && body == kept + more;
    ArgsOfLine(kept);
    WordsJoin(kept, more);
    ArgsAreWords(kept);
    ArgsShorter(kept);
    BlankWords(more);
    TotalJoin(Words(kept), Words(more));
    assert Words(kept) + [] == Words(kept);
  }

  /** A line whose body has at most 16 words is split into exactly those, if and only if its
      body ends within a word and has no further mark. */
  lemma ShortLineIsItsWords(body: string)
    requires |Words(body)| <= MAXDEPTH
    ensures var t := "#!" + body;
            Args(t[..Cut(t, 0)]) == Words(body) <==> EndsInWord(body) && NoMark(body)
  {
    var t := "#!" + body;
    ArgsOfLine(body);
    ArgsAreWords(body);
    CutGrows(t);
    assert t[..|t|] == t;
  }

  /** Texts whose arguments are not their words: one that ends in a space, and one with a mark. */
  lemma NotItsWords()
    ensures Args("a ") != Words("a ") && Args("a#b") != Words("a#b")
  {
    ArgsAreWords("a ");
    ArgsAreWords("a#b");
    assert !EndsInWord("a ") && IsMark("a#b"[1]);
  }

  // ---------- marks, words and lines ----------

  /** Of a word with marks, what follows the last one is left. */
  lemma {:induction false} AfterMarkIs(p: string, mark: char, q: string)
    requires mark == '#' || mark == '!'
    requires forall i :: 0 <= i < |q| ==> q[i] != '#' && q[i] != '!'
    ensures AfterMark(p + [mark] + q) == q
    decreases |q|
  {
    var w := p + [mark] + q;
    if q == "" {
      assert w[|w| - 1] == mark;
    } else {
      assert w[..|w| - 1] == p + [mark] + q[..|q| - 1] && w[|w| - 1] == q[|q| - 1];
      AfterMarkIs(p, mark, q[..|q| - 1]);
    }
  }

  /** A text without spaces is one word, unless it is empty, and a space ends a word. */
  lemma WordsAre(w: string, rest: string)
    requires forall i :: 0 <= i < |w| ==> w[i] != ' '
    ensures Words(w) == if w == "" then [] else [w]
    ensures Words(w + [' '] + rest) == Words(w) + Words(rest)
  {
    FirstSpaceIs(w, |w|);
    WordsOfWord(w);
    WordsSplit(w, rest);
  }

  /** The text of a line ends before the first terminator, carriage return or newline, and has
      no more than `size` characters. */
  lemma TextEndIs(line: seq<char>, size: nat, e: nat)
    requires e <= size && e <= |line|
    ensures e == TextEnd(line, size, 0) <==>
            && (forall k :: 0 <= k < e ==> line[k] != '\0' && line[k] != '\r' && line[k] != '\n')
            && (e == size || e == |line| || line[e] == '\0' || line[e] == '\r' || line[e] == '\n')
  {
    var end := TextEnd(line, size, 0);
    if e < end {
      assert !EndsLine(line[e]);
    }
    if end < e {
      assert EndsLine(line[end]);
    }
  }

  /** The text is cut at the first space that comes after 16 complete arguments. */
  lemma CutIs(t: string, k: nat)
    requires k <= |t|
    ensures k == Cut(t, 0) <==>
            && (forall i :: 0 <= i < k ==> !(t[i] == ' ' && |Args(t[..i])| >= 17))
            && (k == |t| || (t[k] == ' ' && |Args(t[..k])| >= 17))
  {
    var cut := Cut(t, 0);
    forall i | 0 <= i < cut ensures !(t[i] == ' ' && |Args(t[..i])| >= 17) {
      if t[i] == ' ' && |Args(t[..i])| >= 17 {
        CutIsFirst(t, 0, i);
      }
    }
  }
}
