/** The command line of a new process (libposix/string.c, libposix/sys/syscall.c), and the
    rules by which the Microsoft C runtime takes it apart again ("Parsing C command-line
    arguments"). */
module Quoting {
  import opened Common

  const BS := '\\'
  const QUOTE := '"'
  const ARGS_LIMIT := 0x3000

  function Backslashes(n: nat): (r: string)
    ensures |r| == n
  {
    if n == 0 then "" else [BS] + Backslashes(n - 1)
  }

  lemma {:induction false} BackslashAt(n: nat, i: nat)
    requires i < n
    ensures Backslashes(n)[i] == BS
  {
    if i > 0 {
      BackslashAt(n - 1, i - 1);
    }
  }

  lemma {:induction false} BackslashesAdd(a: nat, b: nat)
    ensures Backslashes(a) + Backslashes(b) == Backslashes(a + b)
  {
    if a == 0 {
      assert "" + Backslashes(b) == Backslashes(b);
    } else {
      BackslashesAdd(a - 1, b);
      assert [BS] + Backslashes(a - 1) + Backslashes(b) == [BS] + (Backslashes(a - 1) + Backslashes(b));
    }
  }

  lemma Appended(line: string, s: string, c: char)
    ensures line + s + [c] == line + (s + [c])
  {
  }

  lemma BackslashNext(line: string, n: nat)
    ensures line + Backslashes(n) + [BS] == line + Backslashes(n + 1)
  {
    BackslashesAdd(n, 1);
    assert Backslashes(1) == [BS];
    Appended(line, Backslashes(n), BS);
  }

  // ---------- stpquot ----------

  /** A counter of C type `char`: eight bits, signed. */
  function Wrap(count: int): (r: int)
    ensures -128 <= r < 128 && r % 256 == count % 256
  {
    (count + 128) % 256 - 128
  }

  lemma WrapUp(count: int)
    ensures Wrap(Wrap(count) + 1) == Wrap(count + 1)
  {
    var q := (count + 128) / 256;
    assert Wrap(count) == count - 256 * q;
    assert (count + 129 - 256 * q) % 256 == (count + 129) % 256;
  }

  lemma WrapDown(count: int)
    requires -128 <= count < 128 && count != 0
    ensures Wrap(count - 1) % 256 == count % 256 - 1
  {
  }

  /** What the counter says at a quote behind `run` backslashes. */
  function Fill(run: nat, wraps: bool): nat {
    if wraps then (run + 1) % 256 else run + 1
  }

  /** The body of a quoted argument after a run of `run` backslashes: each quote gets as many
      more in front as the counter says. */
  function Escaped(s: string, run: nat, wraps: bool): string {
    if s == "" then ""
    else if s[0] == QUOTE then
      Backslashes(Fill(run, wraps)) + [QUOTE] + Escaped(s[1..], 0, wraps)
    else if s[0] == BS then [BS] + Escaped(s[1..], run + 1, wraps)
    else [s[0]] + Escaped(s[1..], 0, wraps)
  }

  /** What stpquot() appends for an argument, with a counter that wraps, and what it is
      meant to append. */
  function Quoted(arg: string, wraps: bool): string {
    " \"" + Escaped(arg, 0, wraps) + "\""
  }

  /** The inner loop of stpquot(): the counter runs down to zero. */
  method PutBackslashes(line: string, counter: int) returns (dest: string)
    requires -128 <= counter < 128
    ensures dest == line + Backslashes(counter % 256)
  {
    dest := line;
    var count := counter;
    assert line + "" == line;
    while count != 0
      invariant -128 <= count < 128 && count % 256 <= counter % 256
      invariant dest == line + Backslashes(counter % 256 - count % 256)
      decreases count % 256
    {
      BackslashNext(line, counter % 256 - count % 256);
      WrapDown(count);
      count := Wrap(count - 1);
      dest := dest + [BS];
    }
  }

  /** One character of an argument: what is written, and the run after it. */
  function Written(c: char, run: nat): string {
    if c == QUOTE then Backslashes((run + 1) % 256) + [c] else [c]
  }

  function RunAfter(c: char, run: nat): nat {
    if c == BS then run + 1 else 0
  }

  lemma EscapedNext(dest: string, s: string, run: nat)
    requires s != ""
    ensures dest + Escaped(s, run, true) ==
            dest + Written(s[0], run) + Escaped(s[1..], RunAfter(s[0], run), true)
  {
  }

  /** The loop body of stpquot(). */
  method PutChar(line: string, c: char, counter: int, ghost run: nat) returns (dest: string, count: int)
    requires counter == Wrap(run + 1)
    ensures dest == line + Written(c, run) && count == Wrap(RunAfter(c, run) + 1)
  {
    dest, count := line, counter;
    if c == QUOTE {
      dest := PutBackslashes(dest, count);
      count := 1;
      assert dest + [c] == line + Written(c, run) by {
        Appended(line, Backslashes((run + 1) % 256), c);
      }
    } else if c == BS {
      WrapUp(run + 1);
      count := Wrap(count + 1);
    } else {
      count := 1;
    }
    dest := dest + [c];
  }

  /** The loop of stpquot(). */
  method PutEscaped(line: string, src: string) returns (dest: string)
    ensures dest == line + Escaped(src, 0, true)
  {
    var count := 1;
    ghost var run := 0;
    dest := line;
    ghost var goal := dest + Escaped(src, 0, true);
    var i := 0;
    assert src[0..] == src;
    while i < |src|
      invariant i <= |src| && 0 <= run && count == Wrap(run + 1)
      invariant goal == dest + Escaped(src[i..], run, true)
      decreases |src| - i
    {
      EscapedNext(dest, src[i..], run);
      assert src[i..][1..] == src[i + 1..];
      dest, count := PutChar(dest, src[i], count, run);
      run := RunAfter(src[i], run);
      i := i + 1;
    }
    assert dest + "" == dest;
  }

  /** stpquot() */
  method Stpquot(line: string, src: string) returns (dest: string)
    requires IsString(src)
    ensures dest == line + Quoted(src, true)
  {
    dest := PutEscaped(line + " \"", src);
    assert line + " \"" + Escaped(src, 0, true) + "\"" == line + Quoted(src, true);
    dest := dest + "\"";
  }

  /** No quote is preceded by more backslashes than the counter can hold. */
  predicate CounterFits(s: string, run: nat) {
    if s == "" then true
    else if s[0] == QUOTE then run <= 254 && CounterFits(s[1..], 0)
    else CounterFits(s[1..], if s[0] == BS then run + 1 else 0)
  }

  lemma {:induction false} WrappedIsShorter(s: string, run: nat)
    ensures |Escaped(s, run, true)| <= |Escaped(s, run, false)|
    ensures CounterFits(s, run) ==> Escaped(s, run, true) == Escaped(s, run, false)
    ensures !CounterFits(s, run) ==> |Escaped(s, run, true)| < |Escaped(s, run, false)|
  {
    if s != "" {
      if s[0] == QUOTE {
        WrappedIsShorter(s[1..], 0);
      } else {
        WrappedIsShorter(s[1..], if s[0] == BS then run + 1 else 0);
      }
    }
  }

  /** stpquot() writes what it is meant to exactly for arguments whose backslash runs
      before quotes are at most 254 long. */
  lemma StpquotExact(arg: string)
    ensures Quoted(arg, true) == Quoted(arg, false) <==> CounterFits(arg, 0)
  {
    WrappedIsShorter(arg, 0);
  }

  // ---------- the C runtime ----------

  predicate IsBlank(c: char) {
    c == ' ' || c == '\t'
  }

  /** The number of backslashes that a string starts with. */
  function Run(s: string): (n: nat)
    ensures n <= |s| && (n < |s| ==> s[n] != BS)
  {
    if s == "" || s[0] != BS then 0 else 1 + Run(s[1..])
  }

  lemma OneMore(s: string, b: string, k: nat)
    requires s != "" && k < |s| && s[1..] == b + s[1..][k..]
    ensures s == [s[0]] + b + s[k + 1..]
  {
    assert s == [s[0]] + s[1..] && s[1..][k..] == s[k + 1..];
  }

  lemma {:induction false} RunIsBackslashes(s: string)
    ensures s == Backslashes(Run(s)) + s[Run(s)..]
  {
    if s != "" && s[0] == BS {
      RunIsBackslashes(s[1..]);
      OneMore(s, Backslashes(Run(s[1..])), Run(s[1..]));
    }
  }

  datatype Token = Token(arg: string, rest: string)

  /** Reads one argument: 2n backslashes and a quote stand for n backslashes and a string
      delimiter, 2n + 1 for n backslashes and a quote; other backslashes stand for
      themselves; two quotes inside a quoted part stand for one. */
  function ParseArg(s: string, inQuotes: bool, acc: string): (t: Token)
    ensures |t.rest| <= |s|
    ensures s != "" && (inQuotes || !IsBlank(s[0])) ==> |t.rest| < |s|
    decreases |s|
  {
    if s == "" then Token(acc, "")
    else
      var n := Run(s);
      if n > 0 then
        if n < |s| && s[n] == QUOTE then
          if n % 2 == 1 then ParseArg(s[n + 1..], inQuotes, acc + Backslashes(n / 2) + [QUOTE])
          else ParseArg(s[n..], inQuotes, acc + Backslashes(n / 2))
        else ParseArg(s[n..], inQuotes, acc + Backslashes(n))
      else if s[0] == QUOTE then
        if inQuotes && |s| > 1 && s[1] == QUOTE then ParseArg(s[2..], inQuotes, acc + [QUOTE])
        else ParseArg(s[1..], !inQuotes, acc)
      else if !inQuotes && IsBlank(s[0]) then Token(acc, s)
      else ParseArg(s[1..], inQuotes, acc + [s[0]])
  }

  function SkipBlanks(s: string): (r: string)
    ensures |r| <= |s| && (r != "" ==> !IsBlank(r[0]))
  {
    if s != "" && IsBlank(s[0]) then SkipBlanks(s[1..]) else s
  }

  /** All arguments of a line. */
  function ParseLine(s: string): seq<string>
    decreases |s|
  {
    var t := SkipBlanks(s);
    if t == "" then [] else [ParseArg(t, false, "").arg] + ParseLine(ParseArg(t, false, "").rest)
  }

  // ---------- the round trip ----------

  predicate EndsInBackslash(s: string) {
    s != "" && s[|s| - 1] == BS
  }

  /** The arguments that are read back. */
  predicate ReadsBack(arg: string, wraps: bool) {
    !EndsInBackslash(arg) && (wraps ==> CounterFits(arg, 0))
  }

  lemma EscapedBackslash(s: string, run: nat, wraps: bool)
    ensures Escaped([BS] + s, run, wraps) == [BS] + Escaped(s, run + 1, wraps)
  {
    assert ([BS] + s)[1..] == s;
  }

  lemma OneBackslash(k: nat, s: string)
    requires k > 0
    ensures Backslashes(k) + s == [BS] + (Backslashes(k - 1) + s)
  {
  }

  lemma NoBackslashes(s: string)
    ensures Backslashes(0) + s == s
  {
  }

  lemma EscapedOneMore(k: nat, s: string, run: nat, wraps: bool, e: string)
    requires k > 0 && Escaped(Backslashes(k - 1) + s, run + 1, wraps) == Backslashes(k - 1) + e
    ensures Escaped(Backslashes(k) + s, run, wraps) == Backslashes(k) + e
  {
    OneBackslash(k, s);
    EscapedBackslash(Backslashes(k - 1) + s, run, wraps);
    OneBackslash(k, e);
  }

  lemma {:induction false} EscapedBackslashes(k: nat, s: string, run: nat, wraps: bool)
    ensures Escaped(Backslashes(k) + s, run, wraps) == Backslashes(k) + Escaped(s, run + k, wraps)
  {
    if k == 0 {
      NoBackslashes(s);
      NoBackslashes(Escaped(s, run, wraps));
    } else {
      EscapedBackslashes(k - 1, s, run + 1, wraps);
      EscapedOneMore(k, s, run, wraps, Escaped(s, run + k, wraps));
    }
  }

  lemma {:induction false} RunOf(k: nat, s: string)
    requires s == "" || s[0] != BS
    ensures Run(Backslashes(k) + s) == k
  {
    if k == 0 {
      assert "" + s == s;
    } else {
      RunOf(k - 1, s);
      assert (Backslashes(k) + s)[1..] == Backslashes(k - 1) + s;
    }
  }

  /** The parser at k backslashes in quotes, followed by something else. */
  lemma ParseBackslashes(k: nat, s: string, acc: string)
    requires s != "" && s[0] != BS
    ensures ParseArg(Backslashes(k) + s, true, acc) ==
            if s[0] != QUOTE then ParseArg(s, true, acc + Backslashes(k))
            else if k % 2 == 1 then ParseArg(s[1..], true, acc + Backslashes(k / 2) + [QUOTE])
            else ParseArg(s, true, acc + Backslashes(k / 2))
  {
    RunOf(k, s);
    var t := Backslashes(k) + s;
    if k == 0 {
      assert t == s && acc + Backslashes(0) == acc;
    } else {
      assert t[k..] == s && t[k + 1..] == s[1..];
    }
  }

  lemma Regroup(a: string, b: string, c: string, d: string, e: string)
    ensures a + (b + c + d) + e == a + b + (c + (d + e))
  {
  }

  lemma Halves(k: nat)
    ensures (k + (k + 1) % 256) % 2 == 1
    ensures k <= 254 ==> (k + 1) % 256 == k + 1
    ensures k > 254 ==> (k + 1) % 256 < k + 1
  {
    var q := (k + 1) / 256;
    assert (k + 1) % 256 == k + 1 - 256 * q;
    assert k + (k + 1) % 256 == 2 * (k - 128 * q) + 1;
  }

  /** The backslashes that are read before a quote: all of them while the counter fits. */
  function Kept(k: nat, wraps: bool): (h: nat)
    ensures k + Fill(k, wraps) == 2 * h + 1
    ensures h == k <==> (wraps ==> k <= 254)
    ensures h <= k
  {
    Halves(k);
    (k + Fill(k, wraps)) / 2
  }

  /** Backslashes, a quote and the rest of an argument, as they are written. */
  lemma EscapedQuoteText(k: nat, s: string, tail: string, wraps: bool)
    ensures Escaped(Backslashes(k) + ([QUOTE] + s), 0, wraps) + tail
            == Backslashes(2 * Kept(k, wraps) + 1) + ([QUOTE] + (Escaped(s, 0, wraps) + tail))
  {
    EscapedBackslashes(k, [QUOTE] + s, 0, wraps);
    assert ([QUOTE] + s)[1..] == s;
    BackslashesAdd(k, Fill(k, wraps));
    Regroup(Backslashes(k), Backslashes(Fill(k, wraps)), [QUOTE], Escaped(s, 0, wraps), tail);
  }

  lemma ParseQuote(k: nat, rest: string, acc: string)
    ensures ParseArg(Backslashes(2 * k + 1) + ([QUOTE] + rest), true, acc)
            == ParseArg(rest, true, acc + Backslashes(k) + [QUOTE])
  {
    ParseBackslashes(2 * k + 1, [QUOTE] + rest, acc);
    assert ([QUOTE] + rest)[1..] == rest;
  }

  lemma EscapedQuote(k: nat, s: string, tail: string, acc: string, wraps: bool)
    ensures ParseArg(Escaped(Backslashes(k) + ([QUOTE] + s), 0, wraps) + tail, true, acc)
            == ParseArg(Escaped(s, 0, wraps) + tail, true, acc + Backslashes(Kept(k, wraps)) + [QUOTE])
  {
    EscapedQuoteText(k, s, tail, wraps);
    ParseQuote(Kept(k, wraps), Escaped(s, 0, wraps) + tail, acc);
  }

  lemma EscapedPlain(k: nat, c: char, s: string, tail: string, acc: string, wraps: bool)
    requires c != BS && c != QUOTE
    ensures ParseArg(Escaped(Backslashes(k) + ([c] + s), 0, wraps) + tail, true, acc)
            == ParseArg(Escaped(s, 0, wraps) + tail, true, acc + Backslashes(k) + [c])
  {
    EscapedBackslashes(k, [c] + s, 0, wraps);
    assert ([c] + s)[1..] == s;
    var rest := Escaped(s, 0, wraps) + tail;
    assert Escaped(Backslashes(k) + ([c] + s), 0, wraps) + tail == Backslashes(k) + ([c] + rest);
    ParseBackslashes(k, [c] + rest, acc);
    assert ([c] + rest)[1..] == rest;
  }

  /** The first run of backslashes, the character behind it and the rest. */
  lemma Split(s: string) returns (k: nat, c: char, rest: string)
    requires Run(s) < |s|
    ensures c != BS && s == Backslashes(k) + ([c] + rest) && |rest| < |s|
  {
    RunIsBackslashes(s);
    k := Run(s);
    c, rest := s[k], s[k + 1..];
    assert s[k..] == [c] + rest;
  }

  lemma {:induction false} FitsRun(k: nat, s: string, run: nat)
    ensures CounterFits(Backslashes(k) + s, run) == CounterFits(s, run + k)
  {
    if k == 0 {
      NoBackslashes(s);
    } else {
      OneBackslash(k, s);
      assert ([BS] + (Backslashes(k - 1) + s))[1..] == Backslashes(k - 1) + s;
      FitsRun(k - 1, s, run + 1);
    }
  }

  /** Which arguments are read back, from one run of backslashes to the next. */
  lemma ReadsBackStep(k: nat, c: char, rest: string, wraps: bool)
    requires c != BS
    ensures ReadsBack(Backslashes(k) + ([c] + rest), wraps) <==>
            (wraps && c == QUOTE ==> k <= 254) && ReadsBack(rest, wraps)
  {
    FitsRun(k, [c] + rest, 0);
    assert ([c] + rest)[1..] == rest;
    var s := Backslashes(k) + ([c] + rest);
    assert s[|s| - 1] == if rest == "" then c else rest[|rest| - 1];
  }

  lemma EscapedStep(k: nat, c: char, rest: string, tail: string, acc: string, wraps: bool)
    requires c != BS && (wraps && c == QUOTE ==> k <= 254)
    ensures ParseArg(Escaped(Backslashes(k) + ([c] + rest), 0, wraps) + tail, true, acc)
            == ParseArg(Escaped(rest, 0, wraps) + tail, true, acc + Backslashes(k) + [c])
  {
    if c == QUOTE {
      EscapedQuote(k, rest, tail, acc, wraps);
    } else {
      EscapedPlain(k, c, rest, tail, acc, wraps);
    }
  }

  lemma ReadJoin(acc: string, b: string, c: char, rest: string)
    ensures acc + b + [c] + rest == acc + (b + ([c] + rest))
  {
  }

  /** A string of backslashes only. */
  lemma OnlyBackslashes(s: string)
    requires Run(s) == |s|
    ensures s == Backslashes(|s|) && (s != "" ==> EndsInBackslash(s))
  {
    RunIsBackslashes(s);
    assert s == Backslashes(|s|) + "";
    if s != "" {
      BackslashAt(|s|, |s| - 1);
    }
  }

  /** Inside quotes, the parser reads what is written for an argument as the argument. */
  lemma {:induction false} EscapedParses(s: string, tail: string, acc: string, wraps: bool)
    requires ReadsBack(s, wraps)
    ensures ParseArg(Escaped(s, 0, wraps) + tail, true, acc) == ParseArg(tail, true, acc + s)
    decreases |s|
  {
    if Run(s) == |s| {
      OnlyBackslashes(s);
      assert "" + tail == tail && acc + s == acc;
    } else {
      var k, c, rest := Split(s);
      ReadsBackStep(k, c, rest, wraps);
      EscapedStep(k, c, rest, tail, acc, wraps);
      EscapedParses(rest, tail, acc + Backslashes(k) + [c], wraps);
      ReadJoin(acc, Backslashes(k), c, rest);
    }
  }

  /** What is left of a line starts with a blank, or is empty. */
  predicate IsRest(s: string) {
    s == "" || IsBlank(s[0])
  }

  /** A closing quote before the rest of a line ends the argument. */
  lemma ClosingQuote(rest: string, acc: string)
    requires IsRest(rest)
    ensures ParseArg([QUOTE] + rest, true, acc) == Token(acc, rest)
  {
    var s := [QUOTE] + rest;
    assert s[1..] == rest;
    assert Run(s) == 0 && (rest != "" ==> Run(rest) == 0);
  }

  lemma {:induction false} ParseArgExtends(s: string, inQuotes: bool, acc: string)
    ensures acc <= ParseArg(s, inQuotes, acc).arg
    decreases |s|
  {
    if s != "" {
      var n := Run(s);
      if n > 0 {
        if n < |s| && s[n] == QUOTE {
          if n % 2 == 1 {
            ParseArgExtends(s[n + 1..], inQuotes, acc + Backslashes(n / 2) + [QUOTE]);
          } else {
            ParseArgExtends(s[n..], inQuotes, acc + Backslashes(n / 2));
          }
        } else {
          ParseArgExtends(s[n..], inQuotes, acc + Backslashes(n));
        }
      } else if s[0] == QUOTE {
        if inQuotes && |s| > 1 && s[1] == QUOTE {
          ParseArgExtends(s[2..], inQuotes, acc + [QUOTE]);
        } else {
          ParseArgExtends(s[1..], !inQuotes, acc);
        }
      } else if inQuotes || !IsBlank(s[0]) {
        ParseArgExtends(s[1..], inQuotes, acc + [s[0]]);
      }
    }
  }

  /** A quote that is read too early cannot be undone by what follows. */
  lemma ReadTooEarly(p: string, h: nat, k: nat, s: string, after: string)
    requires h < k
    ensures ParseArg(s, true, p + Backslashes(h) + [QUOTE]).arg != p + (Backslashes(k) + after)
  {
    var acc := p + Backslashes(h) + [QUOTE];
    ParseArgExtends(s, true, acc);
    BackslashAt(k, h);
    assert acc[|p| + h] == QUOTE && (p + (Backslashes(k) + after))[|p| + h] == BS;
  }

  /** k backslashes before the closing quote are not read as k backslashes. */
  lemma BackslashesAtEnd(p: string, k: nat, rest: string)
    requires k > 0 && IsRest(rest)
    ensures ParseArg(Backslashes(k) + ([QUOTE] + rest), true, p).arg != p + Backslashes(k)
  {
    ParseBackslashes(k, [QUOTE] + rest, p);
    if k % 2 == 1 {
      assert ([QUOTE] + rest)[1..] == rest;
      ReadTooEarly(p, k / 2, k, rest, "");
      assert Backslashes(k) + "" == Backslashes(k);
    } else {
      ClosingQuote(rest, p + Backslashes(k / 2));
    }
  }

  lemma EscapedOnlyBackslashes(k: nat, wraps: bool)
    ensures Escaped(Backslashes(k), 0, wraps) == Backslashes(k)
  {
    EscapedBackslashes(k, "", 0, wraps);
    assert Backslashes(k) + "" == Backslashes(k);
  }

  /** A quote behind more backslashes than the counter holds is read behind too few. */
  lemma CounterWraps(k: nat, s: string, tail: string, acc: string)
    requires k > 254
    ensures ParseArg(Escaped(Backslashes(k) + ([QUOTE] + s), 0, true) + tail, true, acc).arg
            != acc + (Backslashes(k) + ([QUOTE] + s))
  {
    EscapedQuote(k, s, tail, acc, true);
    ReadTooEarly(acc, Kept(k, true), k, Escaped(s, 0, true) + tail, [QUOTE] + s);
  }

  /** An argument that ends in a backslash, or for which the counter wraps, is read as
      something else. */
  lemma {:induction false} Misread(s: string, rest: string, acc: string, wraps: bool)
    requires !ReadsBack(s, wraps) && IsRest(rest)
    ensures ParseArg(Escaped(s, 0, wraps) + ([QUOTE] + rest), true, acc).arg != acc + s
    decreases |s|
  {
    if Run(s) == |s| {
      OnlyBackslashes(s);
      EscapedOnlyBackslashes(|s|, wraps);
      BackslashesAtEnd(acc, |s|, rest);
    } else {
      var k, c, after := Split(s);
      ReadsBackStep(k, c, after, wraps);
      if wraps && c == QUOTE && k > 254 {
        CounterWraps(k, after, [QUOTE] + rest, acc);
      } else {
        EscapedStep(k, c, after, [QUOTE] + rest, acc, wraps);
        Misread(after, rest, acc + Backslashes(k) + [c], wraps);
        ReadJoin(acc, Backslashes(k), c, after);
      }
    }
  }

  /** The quoted arguments of a line, one after the other. */
  function Line(args: seq<string>, wraps: bool): string {
    if args == [] then "" else Quoted(args[0], wraps) + Line(args[1..], wraps)
  }

  /** The first argument of a line, as the parser meets it. */
  lemma FirstArgument(arg: string, rest: string, wraps: bool)
    ensures var s := Quoted(arg, wraps) + rest;
            && SkipBlanks(s) != ""
            && ParseArg(SkipBlanks(s), false, "") == ParseArg(Escaped(arg, 0, wraps) + ([QUOTE] + rest), true, "")
  {
    var s := Quoted(arg, wraps) + rest;
    var body := Escaped(arg, 0, wraps) + ([QUOTE] + rest);
    assert s[1..] == [QUOTE] + body && s[0] == ' ';
    assert SkipBlanks(s) == SkipBlanks(s[1..]) == s[1..];
    assert ([QUOTE] + body)[1..] == body && Run([QUOTE] + body) == 0;
  }

  lemma EmptyAcc(s: string)
    ensures "" + s == s
  {
  }

  /** The first argument of a line is read back, or something else is. */
  lemma LineHead(args: seq<string>, wraps: bool)
    requires args != []
    ensures var parsed := ParseLine(Line(args, wraps));
            && parsed != []
            && (!ReadsBack(args[0], wraps) ==> parsed[0] != args[0])
            && (ReadsBack(args[0], wraps) ==> parsed == [args[0]] + ParseLine(Line(args[1..], wraps)))
  {
    var rest := Line(args[1..], wraps);
    FirstArgument(args[0], rest, wraps);
    assert IsRest(rest);
    EmptyAcc(args[0]);
    if ReadsBack(args[0], wraps) {
      EscapedParses(args[0], [QUOTE] + rest, "", wraps);
      ClosingQuote(rest, args[0]);
    } else {
      Misread(args[0], rest, "", wraps);
    }
  }

  ghost predicate AllReadBack(args: seq<string>, wraps: bool) {
    forall i :: 0 <= i < |args| ==> ReadsBack(args[i], wraps)
  }

  /** The C runtime gives the arguments of a quoted line back if and only if each of them
      reads back. */
  lemma {:induction false} LineRoundTrip(args: seq<string>, wraps: bool)
    ensures ParseLine(Line(args, wraps)) == args <==> AllReadBack(args, wraps)
  {
    if args != [] {
      LineHead(args, wraps);
      LineRoundTrip(args[1..], wraps);
      if ReadsBack(args[0], wraps) {
        assert args == [args[0]] + args[1..];
        assert AllReadBack(args, wraps) <==> AllReadBack(args[1..], wraps);
      }
    }
  }

  // ---------- argv_win ----------

  /** The number of arguments that go on a line of which `len` characters are used. */
  function Accepted(len: nat, args: seq<string>): (k: nat)
    ensures k <= |args|
    decreases |args|
  {
    if args == [] || len + (|args[0]| + 3) > ARGS_LIMIT then 0
    else 1 + Accepted(len + |Quoted(args[0], true)|, args[1..])
  }

  lemma LineNext(line: string, args: seq<string>, k: nat)
    requires 0 < k <= |args|
    ensures line + Quoted(args[0], true) + Line(args[1..][..k - 1], true) == line + Line(args[..k], true)
  {
    assert args[..k][1..] == args[1..][..k - 1];
  }

  /** argv_win(): the first argument is skipped, and the line stops growing before the first
      argument that would exceed the limit of CreateProcess(). */
  method ArgvWin(command: string, argv: seq<string>) returns (line: string)
    requires argv != [] && forall a :: a in argv ==> IsString(a)
    ensures var args := argv[1..]; line == command + Line(args[..Accepted(|command|, args)], true)
  {
    line := command;
    var i := 1;
    ghost var args := argv[1..];
    ghost var all := command + Line(args[..Accepted(|command|, args)], true);
    while i < |argv|
      invariant 1 <= i <= |argv|
      invariant all == line + Line(argv[i..][..Accepted(|line|, argv[i..])], true)
      decreases |argv| - i
    {
      var arg := argv[i];
      var len := |arg| + 3;
      if |line| + len > ARGS_LIMIT {
        break;
      }
      assert argv[i..][0] == arg && argv[i..][1..] == argv[i + 1..];
      LineNext(line, argv[i..], Accepted(|line|, argv[i..]));
      line := Stpquot(line, arg);
      i := i + 1;
    }
    assert Accepted(|line|, argv[i..]) == 0;
    assert argv[i..][..0] == [] && line + "" == line;
  }

  lemma {:induction false} EscapedGrows(s: string, run: nat)
    ensures |Escaped(s, run, true)| >= |s|
  {
    if s != "" {
      EscapedGrows(s[1..], if s[0] == BS then run + 1 else 0);
    }
  }

  /** All arguments are accepted if the whole line fits the limit. */
  lemma {:induction false} AllAccepted(len: nat, args: seq<string>)
    requires len + |Line(args, true)| <= 0x3000
    ensures Accepted(len, args) == |args|
    decreases |args|
  {
    if args != [] {
      EscapedGrows(args[0], 0);
      AllAccepted(len + |Quoted(args[0], true)|, args[1..]);
    }
  }

  /** Which arguments are accepted: up to, and without, the first that would exceed the limit,
      if it were written as it is, in quotes, behind a space. */
  lemma {:induction false} AcceptedIs(len: nat, args: seq<string>, k: nat)
    requires k <= |args|
    ensures k < Accepted(len, args) ==> len + |Line(args[..k], true)| + |args[k]| + 3 <= 0x3000
    ensures k == Accepted(len, args) < |args| ==> len + |Line(args[..k], true)| + |args[k]| + 3 > 0x3000
    decreases |args|
  {
    if args != [] && Accepted(len, args) > 0 && k > 0 {
      AcceptedIs(len + |Quoted(args[0], true)|, args[1..], k - 1);
      assert args[..k][0] == args[0] && args[..k][1..] == args[1..][..k - 1];
    }
  }

  /** The tail of the line that argv_win() builds is read by the C runtime as exactly the
      accepted arguments, if and only if none of those ends in a backslash or has a quote
      behind more than 254 of them. */
  lemma CommandLineRoundTrip(command: string, args: seq<string>)
    ensures var accepted := args[..Accepted(|command|, args)];
            var line := command + Line(accepted, true);
            ParseLine(line[|command|..]) == accepted <==>
            forall a :: a in accepted ==> !EndsInBackslash(a) && CounterFits(a, 0)
  {
    var accepted := args[..Accepted(|command|, args)];
    assert (command + Line(accepted, true))[|command|..] == Line(accepted, true);
    LineRoundTrip(accepted, true);
    forall i | 0 <= i < |accepted| ensures accepted[i] in accepted {
    }
  }

  /** A command line that fits is read by the C runtime as all of its arguments, if and only if
      none ends in a backslash or has a quote behind more than 254 of them. */
  lemma WholeLineRoundTrip(command: string, args: seq<string>)
    requires |command + Line(args, true)| <= 0x3000
    ensures var line := command + Line(args[..Accepted(|command|, args)], true);
            ParseLine(line[|command|..]) == args <==> forall a :: a in args ==> !EndsInBackslash(a) && CounterFits(a, 0)
  {
    AllAccepted(|command|, args);
    assert args[..|args|] == args;
    CommandLineRoundTrip(command, args);
  }

  /** The C runtime reads text without quotes, backslashes and blanks as it is, in quotes and
      outside them. */
  lemma {:induction false} PlainArgument(s: string, rest: string, inQuotes: bool, acc: string)
    requires forall i :: 0 <= i < |s| ==> s[i] != BS && s[i] != QUOTE && !IsBlank(s[i])
    ensures ParseArg(s + rest, inQuotes, acc) == ParseArg(rest, inQuotes, acc + s)
    decreases |s|
  {
    if s == "" {
      EmptyAcc(rest);
      assert acc + "" == acc;
    } else {
      assert (s + rest)[1..] == s[1..] + rest && (s + rest)[0] == s[0];
      PlainArgument(s[1..], rest, inQuotes, acc + [s[0]]);
      assert acc + [s[0]] + s[1..] == acc + s;
    }
  }

  /** The shortest arguments that are not read back. */
  lemma NotReadBack()
    ensures !CounterFits(Backslashes(255) + [QUOTE], 0) && CounterFits(Backslashes(254) + [QUOTE], 0)
    ensures ParseLine(Line([Backslashes(255) + [QUOTE]], true)) != [Backslashes(255) + [QUOTE]]
    ensures ParseLine(Line([[BS]], true)) != [[BS]]
  {
    FitsRun(255, [QUOTE], 0);
    FitsRun(254, [QUOTE], 0);
    LineRoundTrip([Backslashes(255) + [QUOTE]], true);
    LineRoundTrip([[BS]], true);
    assert !ReadsBack([Backslashes(255) + [QUOTE]][0], true) && !ReadsBack([[BS]][0], true);
  }
}
