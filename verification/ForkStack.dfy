/** Relocation of the parent's stack into a forked child (libposix/sys/sched.c).

    Memory is an array of machine words and an address is a word index, so
    `sizeof(u_long)` is 1.  Address 0 is the null pointer.  A frame starts at the
    address of its saved base pointer, with the return address one word above.
 */
module ForkStack {
  /** The part of WIN_THREAD_STRUCT that the copy reads and updates. */
  class Thread {
    const origin: nat
    const offset: nat
    var source: nat
    var dest: nat

    constructor (origin: nat, source: nat, offset: nat, dest: nat)
      ensures this.origin == origin && this.source == source && this.offset == offset && this.dest == dest
    {
      this.origin, this.source, this.offset, this.dest := origin, source, offset, dest;
    }
  }

  /** The recursion ends at the process frame or at the thread frame. */
  predicate Stops(frame: nat, src: nat) {
    src == 0 || src == frame
  }

  /** The end of a frame whose saved base pointer is `next`. */
  function FrameEnd(next: nat, origin: nat): nat {
    if next == 0 then origin else next
  }

  /** Saved base pointers rise strictly from `src` up to a stop, and the outermost
      frame has room for its return address. */
  ghost predicate Chain(m: seq<nat>, frame: nat, origin: nat, src: nat)
    decreases |m| - src
  {
    Stops(frame, src) ||
    (src < |m| &&
     if Stops(frame, m[src]) then src + 2 <= FrameEnd(m[src], origin) <= |m|
     else src < m[src] && Chain(m, frame, origin, m[src]))
  }

  /** Where the copied region ends: the thread frame, or the origin of the stack. */
  ghost function Top(m: seq<nat>, frame: nat, origin: nat, src: nat): (t: nat)
    requires Chain(m, frame, origin, src)
    ensures Stops(frame, src) ==> t == src
    ensures !Stops(frame, src) ==> src + 2 <= t <= |m|
    decreases |m| - src
  {
    if Stops(frame, src) then src
    else if Stops(frame, m[src]) then FrameEnd(m[src], origin)
    else Top(m, frame, origin, m[src])
  }

  /** The frames met by following saved base pointers, innermost first. */
  ghost function Bases(m: seq<nat>, frame: nat, origin: nat, src: nat): (b: seq<nat>)
    requires Chain(m, frame, origin, src)
    ensures b == [] <==> Stops(frame, src)
    decreases |m| - src
  {
    if Stops(frame, src) then []
    else if Stops(frame, m[src]) then [src]
    else [src] + Bases(m, frame, origin, m[src])
  }

  /** The bases are the chain itself: they start at `src`, each holds the next, and the last is
      the first that holds 0 or the thread frame. */
  lemma {:induction false} BasesAre(m: seq<nat>, frame: nat, origin: nat, src: nat)
    requires Chain(m, frame, origin, src) && src != 0 && src != frame
    ensures var b := Bases(m, frame, origin, src);
            && b != [] && b[0] == src && (forall k :: 0 <= k < |b| ==> b[k] < |m|)
            && (forall k :: 0 <= k < |b| - 1 ==> m[b[k]] == b[k + 1] && m[b[k]] != 0 && m[b[k]] != frame)
            && (m[b[|b| - 1]] == 0 || m[b[|b| - 1]] == frame)
    decreases |m| - src
  {
    if m[src] != 0 && m[src] != frame {
      var outer := Bases(m, frame, origin, m[src]);
      assert Bases(m, frame, origin, src) == [src] + outer;
      BasesAre(m, frame, origin, m[src]);
    }
  }

  /** The region ends at the thread frame if the last base holds it, and at the origin of the
      stack if it holds 0. */
  lemma {:induction false} TopIs(m: seq<nat>, frame: nat, origin: nat, src: nat)
    requires Chain(m, frame, origin, src) && src != 0 && src != frame
    ensures var b := Bases(m, frame, origin, src);
            var last := b[|b| - 1];
            last < |m| && Top(m, frame, origin, src) == if m[last] == 0 then origin else frame
    decreases |m| - src
  {
    if m[src] != 0 && m[src] != frame {
      TopIs(m, frame, origin, m[src]);
    }
  }

  lemma {:induction false} BasesInRange(m: seq<nat>, frame: nat, origin: nat, src: nat, a: nat)
    requires Chain(m, frame, origin, src) && a in Bases(m, frame, origin, src)
    ensures src <= a && a + 2 <= Top(m, frame, origin, src)
    decreases |m| - src
  {
    if a != src {
      BasesInRange(m, frame, origin, m[src], a);
    }
  }

  /** What the word at `a` of the old stack becomes in the new one, when the region
      that ended at `top` is moved so that it ends at `dest`. */
  ghost function Image(m: seq<nat>, bases: seq<nat>, top: nat, dest: nat, threxit: nat, a: nat): int
    requires a < |m|
  {
    if a in bases then (if m[a] == 0 then dest else m[a] + dest - top)
    else if bases != [] && a == bases[|bases| - 1] + 1 then threxit
    else m[a]
  }

  /** What the relocation of [src, Top) to end at `dest` makes of the word at `i`. */
  ghost predicate MovedWord(m: seq<nat>, m2: seq<nat>, frame: nat, origin: nat, src: nat,
                            dest: nat, threxit: nat, i: nat)
    requires Chain(m, frame, origin, src) && i < |m| == |m2|
  {
    var top := Top(m, frame, origin, src);
    if dest - (top - src) <= i < dest then
      m2[i] == Image(m, Bases(m, frame, origin, src), top, dest, threxit, i - dest + top)
    else
      m2[i] == m[i]
  }

  /** `m2` is `m` with a relocated copy of [src, Top) ending at `dest`, and nothing else changed. */
  ghost predicate Relocated(m: seq<nat>, m2: seq<nat>, frame: nat, origin: nat, src: nat,
                            dest: nat, threxit: nat)
    requires Chain(m, frame, origin, src)
  {
    && |m2| == |m| && Top(m, frame, origin, src) - src <= dest <= |m|
    && forall i: nat :: i < |m| ==> MovedWord(m, m2, frame, origin, src, dest, threxit, i)
  }

  /** [a, a + n) and [b, b + n) do not overlap. */
  predicate Disjoint(a: int, b: int, n: int) {
    a + n <= b || b + n <= a
  }

  ghost function Copied(m: seq<nat>, dest: nat, src: nat, n: nat): (r: seq<nat>)
    requires dest + n <= |m| && src + n <= |m|
    ensures |r| == |m|
  {
    m[..dest] + m[src..src + n] + m[dest + n..]
  }

  /** The C library's memcpy, on ranges that do not overlap. */
  method MemCpy(mem: array<nat>, dest: nat, src: nat, n: nat)
    requires dest + n <= mem.Length && src + n <= mem.Length
    requires Disjoint(dest, src, n)
    modifies mem
    ensures forall i :: dest <= i < dest + n ==> mem[i] == old(mem[i - dest + src])
    ensures forall i {:trigger mem[i]} :: 0 <= i < mem.Length && !(dest <= i < dest + n) ==> mem[i] == old(mem[i])
  {
    var k := 0;
    while k < n
      invariant k <= n
      invariant forall i :: dest <= i < dest + k ==> mem[i] == old(mem[i - dest + src])
      invariant forall i {:trigger mem[i]} :: 0 <= i < mem.Length && !(dest <= i < dest + k) ==> mem[i] == old(mem[i])
    {
      mem[dest + k] := mem[src + k];
      k := k + 1;
    }
  }

  /** What placing the frame at `src` at `low` makes of the word at `i`. */
  ghost predicate PlacedWord(inner: seq<nat>, m2: seq<nat>, last: bool, src: nat, low: int, size: int,
                             threxit: nat, i: nat)
    requires i < |m2| == |inner| && src + size <= |inner|
  {
    if i == low then m2[i] == low + size
    else if last && i == low + 1 then m2[i] == threxit
    else if low < i < low + size then m2[i] == inner[i - low + src]
    else m2[i] == inner[i]
  }

  /** Memory after one frame was added below the relocated outer frames in `inner`. */
  ghost predicate FramePlaced(inner: seq<nat>, m2: seq<nat>, last: bool, src: nat,
                              low: int, size: int, threxit: nat)
  {
    && |m2| == |inner| && 1 <= size && (last ==> 2 <= size)
    && 0 <= low && low + size <= |inner| && src + size <= |inner|
    && forall i: nat :: i < |m2| ==> PlacedWord(inner, m2, last, src, low, size, threxit, i)
  }

  /** The body of one recursion step: the frame at `src` goes directly below `t.dest`. */
  method PlaceFrame(mem: array<nat>, t: Thread, src: nat, size: nat, last: bool, threxit: nat)
    requires 1 <= size <= t.dest <= mem.Length && (last ==> 2 <= size) && src + size <= mem.Length
    requires Disjoint(t.dest - size, src, size)
    modifies mem, t`dest
    ensures t.dest == old(t.dest) - size
    ensures FramePlaced(old(mem[..]), mem[..], last, src, t.dest, size, threxit)
  {
    t.dest := t.dest - size;
    MemCpy(mem, t.dest, src, size);
    if last {
      mem[t.dest + 1] := threxit;
    }
    mem[t.dest] := t.dest + size;
  }

  /** A word of the frame at `src` is kept, but for the base pointer and, in the outermost
      frame, the return address. */
  lemma ImageInner(m: seq<nat>, frame: nat, origin: nat, src: nat, dest: nat, threxit: nat, a: nat)
    requires Chain(m, frame, origin, src) && !Stops(frame, src)
    requires src <= a < FrameEnd(m[src], origin)
    ensures a < |m| && FrameEnd(m[src], origin) <= Top(m, frame, origin, src)
    ensures var top := Top(m, frame, origin, src);
            Image(m, Bases(m, frame, origin, src), top, dest, threxit, a)
            == if a == src then FrameEnd(m[src], origin) + dest - top
               else if Stops(frame, m[src]) && a == src + 1 then threxit
               else m[a]
  {
    if !Stops(frame, m[src]) {
      var outer := Bases(m, frame, origin, m[src]);
      assert Bases(m, frame, origin, src) == [src] + outer;
      BasesInRange(m, frame, origin, m[src], outer[|outer| - 1]);
      if a in outer {
        BasesInRange(m, frame, origin, m[src], a);
      }
    }
  }

  /** Copying the outer frames leaves the frame at `src` as it was. */
  lemma SourceKept(m: seq<nat>, inner: seq<nat>, frame: nat, origin: nat, src: nat,
                   dest: nat, threxit: nat, a: nat)
    requires Chain(m, frame, origin, src) && !Stops(frame, src)
    requires Relocated(m, inner, frame, origin, m[src], dest, threxit)
    requires var n := Top(m, frame, origin, src) - src; n <= dest && Disjoint(src, dest - n, n)
    requires src <= a < FrameEnd(m[src], origin) <= Top(m, frame, origin, src)
    ensures a < |m| && inner[a] == m[a]
  {
    assert MovedWord(m, inner, frame, origin, m[src], dest, threxit, a);
  }

  /** A word outside the frame at `src` has the image that the outer chain gives it. */
  lemma ImageOuter(m: seq<nat>, frame: nat, origin: nat, src: nat, dest: nat, threxit: nat, a: nat)
    requires Chain(m, frame, origin, src) && !Stops(frame, src)
    requires FrameEnd(m[src], origin) <= a < Top(m, frame, origin, src)
    ensures !Stops(frame, m[src])
    ensures var top := Top(m, frame, origin, src);
            Image(m, Bases(m, frame, origin, src), top, dest, threxit, a)
            == Image(m, Bases(m, frame, origin, m[src]), top, dest, threxit, a)
  {
    assert Bases(m, frame, origin, src) == [src] + Bases(m, frame, origin, m[src]);
  }

  /** Outside the new frame, the outer relocation and the longer one agree. */
  lemma OuterKept(m: seq<nat>, inner: seq<nat>, frame: nat, origin: nat, src: nat,
                  dest: nat, threxit: nat, i: nat)
    requires Chain(m, frame, origin, src) && !Stops(frame, src)
    requires i < |m| == |inner| && MovedWord(m, inner, frame, origin, m[src], dest, threxit, i)
    requires var a := i - dest + Top(m, frame, origin, src); a < src || FrameEnd(m[src], origin) <= a
    ensures MovedWord(m, inner, frame, origin, src, dest, threxit, i)
  {
    var a := i - dest + Top(m, frame, origin, src);
    if FrameEnd(m[src], origin) <= a < Top(m, frame, origin, src) {
      ImageOuter(m, frame, origin, src, dest, threxit, a);
    }
  }

  /** A word of the new frame. */
  lemma FrameWord(m: seq<nat>, inner: seq<nat>, m2: seq<nat>, frame: nat, origin: nat, src: nat,
                  dest: nat, threxit: nat, a: nat, i: nat)
    requires Chain(m, frame, origin, src) && !Stops(frame, src) && i < |m| == |m2| == |inner|
    requires var top, end := Top(m, frame, origin, src), FrameEnd(m[src], origin);
             && src <= a < end <= top && i == a + dest - top && a < |m| && inner[a] == m[a] && end <= |m|
             && PlacedWord(inner, m2, Stops(frame, m[src]), src, dest - (top - src), end - src, threxit, i)
    ensures MovedWord(m, m2, frame, origin, src, dest, threxit, i)
  {
    ImageInner(m, frame, origin, src, dest, threxit, a);
  }

  /** A word that is not in the new frame. */
  lemma OtherWord(m: seq<nat>, inner: seq<nat>, m2: seq<nat>, frame: nat, origin: nat, src: nat,
                  dest: nat, threxit: nat, i: nat)
    requires Chain(m, frame, origin, src) && !Stops(frame, src) && i < |m| == |m2| == |inner|
    requires var top, end := Top(m, frame, origin, src), FrameEnd(m[src], origin);
             && src + 1 <= end <= |m| && !(src <= i - dest + top < end) && (Stops(frame, m[src]) ==> src + 2 <= end)
             && PlacedWord(inner, m2, Stops(frame, m[src]), src, dest - (top - src), end - src, threxit, i)
    requires MovedWord(m, inner, frame, origin, src, dest, threxit, i)
    ensures MovedWord(m, m2, frame, origin, src, dest, threxit, i)
  {
    assert m2[i] == inner[i];
  }

  /** One step of the copy, word by word: a frame placed directly below the relocated
      outer frames extends the relocation by that frame. */
  lemma WordAdded(m: seq<nat>, inner: seq<nat>, m2: seq<nat>, frame: nat, origin: nat, src: nat,
                  dest: nat, threxit: nat, i: nat)
    requires Chain(m, frame, origin, src) && !Stops(frame, src)
    requires Relocated(m, inner, frame, origin, m[src], dest, threxit)
    requires var n := Top(m, frame, origin, src) - src; n <= dest && Disjoint(src, dest - n, n)
    requires FramePlaced(inner, m2, Stops(frame, m[src]), src, dest - (Top(m, frame, origin, src) - src),
                         FrameEnd(m[src], origin) - src, threxit)
    requires i < |m|
    ensures MovedWord(m, m2, frame, origin, src, dest, threxit, i)
  {
    var top, end := Top(m, frame, origin, src), FrameEnd(m[src], origin);
    var a := i - dest + top;
    assert PlacedWord(inner, m2, Stops(frame, m[src]), src, dest - (top - src), end - src, threxit, i);
    if src <= a < end {
      ImageInner(m, frame, origin, src, dest, threxit, a);
      SourceKept(m, inner, frame, origin, src, dest, threxit, a);
      FrameWord(m, inner, m2, frame, origin, src, dest, threxit, a, i);
    } else {
      assert MovedWord(m, inner, frame, origin, m[src], dest, threxit, i);
      OuterKept(m, inner, frame, origin, src, dest, threxit, i);
      OtherWord(m, inner, m2, frame, origin, src, dest, threxit, i);
    }
  }

  /** Copies the frames of the chain from `src`, outermost first, below `t.dest`. */
  method CopyStack(mem: array<nat>, t: Thread, frame: nat, threxit: nat, origin: nat, src: nat)
    returns (depth: nat)
    requires Chain(mem[..], frame, origin, src)
    requires var n := Top(mem[..], frame, origin, src) - src;
             n <= t.dest <= mem.Length && Disjoint(src, t.dest - n, n)
    modifies mem, t`dest
    ensures depth == |Bases(old(mem[..]), frame, origin, src)|
    ensures t.dest == old(t.dest) - (Top(old(mem[..]), frame, origin, src) - src)
    ensures Relocated(old(mem[..]), mem[..], frame, origin, src, old(t.dest), threxit)
    decreases if Stops(frame, src) then 0 else mem.Length - src
  {
    if src == 0 {
      depth := 0;
    } else if src == frame {
      depth := 0;
    } else {
      ghost var m, dest := mem[..], t.dest;
      var next := mem[src];
      depth := CopyStack(mem, t, frame, threxit, origin, next);
      var size: nat := if next == 0 then origin - src else next - src;
      ghost var inner := mem[..];
      PlaceFrame(mem, t, src, size, depth == 0, threxit);
      depth := depth + 1;
      forall i: nat | i < |m| {
        WordAdded(m, inner, mem[..], frame, origin, src, dest, threxit, i);
      }
    }
  }

  /** The saved base pointer of the frame at `a` was shifted along with it. */
  ghost predicate Linked(m: seq<nat>, m2: seq<nat>, dest: nat, shift: int, a: nat) {
    a < |m| && 0 < a + shift < |m2| && m2[a + shift] == if m[a] == 0 then dest else m[a] + shift
  }

  ghost function Shifted(s: seq<nat>, shift: int): (r: seq<int>)
    ensures |r| == |s|
  {
    if s == [] then [] else [s[0] + shift] + Shifted(s[1..], shift)
  }

  /** Following saved base pointers from `src2` in `m2` visits the frames that the parent
      visits from `src` in `m`, all shifted by one constant, and ends at `dest`. */
  ghost predicate ChainShifted(m: seq<nat>, m2: seq<nat>, frame: nat, origin: nat, src: nat, src2: nat, dest: nat)
    requires Chain(m, frame, origin, src)
  {
    && Chain(m2, dest, dest, src2) && Top(m2, dest, dest, src2) == dest
    && Bases(m2, dest, dest, src2) == Shifted(Bases(m, frame, origin, src), dest - Top(m, frame, origin, src))
  }

  /** One frame more below a chain that is shifted. */
  lemma FrameMoved(m: seq<nat>, m2: seq<nat>, frame: nat, origin: nat, src: nat, src2: nat, dest: nat)
    requires Chain(m, frame, origin, src) && !Stops(frame, src) && !Stops(frame, m[src]) && dest <= |m2|
    requires 0 < src2 == src + dest - Top(m, frame, origin, src) && src2 < dest
    requires m2[src2] == m[src] + dest - Top(m, frame, origin, src) && 0 < m2[src2] != dest
    requires ChainShifted(m, m2, frame, origin, m[src], m2[src2], dest)
    ensures ChainShifted(m, m2, frame, origin, src, src2, dest)
  {
    assert Bases(m, frame, origin, src) == [src] + Bases(m, frame, origin, m[src]);
    assert Bases(m2, dest, dest, src2) == [src2] + Bases(m2, dest, dest, m2[src2]);
  }

  /** The chain rebuilt in the new stack is the old one shifted by one constant: the
      same number of frames, of the same sizes, ending at the original `dest`. */
  lemma {:induction false} ChainMoved(m: seq<nat>, m2: seq<nat>, frame: nat, origin: nat, src: nat,
                                      src2: nat, dest: nat, shift: int)
    requires Chain(m, frame, origin, src) && dest <= |m2|
    requires shift == dest - Top(m, frame, origin, src) && src2 == src + shift
    requires forall a :: a in Bases(m, frame, origin, src) ==> Linked(m, m2, dest, shift, a)
    ensures ChainShifted(m, m2, frame, origin, src, src2, dest)
    decreases |m| - src
  {
    if !Stops(frame, src) {
      var bases := Bases(m, frame, origin, src);
      assert bases[0] == src && Linked(m, m2, dest, shift, src);
      if Stops(frame, m[src]) {
        assert m2[src2] == dest && bases == [src];
        assert Bases(m2, dest, dest, src2) == [src2];
      } else {
        var outer := Bases(m, frame, origin, m[src]);
        assert bases == [src] + outer;
        assert forall a :: a in outer ==> a in bases;
        ChainMoved(m, m2, frame, origin, m[src], m2[src2], dest, shift);
        FrameMoved(m, m2, frame, origin, src, src2, dest);
      }
    }
  }

  /** Every saved base pointer of a relocated stack is linked to its new place. */
  lemma BasesLinked(m: seq<nat>, m2: seq<nat>, frame: nat, origin: nat, src: nat, dest: nat, threxit: nat, a: nat)
    requires Chain(m, frame, origin, src) && |m2| == |m|
    requires Top(m, frame, origin, src) - src <= dest <= |m|
    requires a in Bases(m, frame, origin, src)
    requires var i := a + dest - Top(m, frame, origin, src);
             0 < i < |m| && MovedWord(m, m2, frame, origin, src, dest, threxit, i)
    ensures Linked(m, m2, dest, dest - Top(m, frame, origin, src), a)
  {
    BasesInRange(m, frame, origin, src, a);
  }

  /** The state of memory after `TaskCopy`: the current frame, `offset` words below `src`,
      is copied unchanged directly below the relocated stack; the rest is as relocated. */
  ghost predicate ForkedWord(m: seq<nat>, m2: seq<nat>, frame: nat, origin: nat, src: nat, offset: nat,
                             dest: nat, threxit: nat, i: nat)
    requires Chain(m, frame, origin, src) && i < |m| == |m2| && src <= |m|
  {
    var shift := dest - Top(m, frame, origin, src);
    if src + shift - offset <= i < src + shift then
      0 <= i - shift < |m| && m2[i] == m[i - shift]
    else
      MovedWord(m, m2, frame, origin, src, dest, threxit, i)
  }

  ghost predicate Forked(m: seq<nat>, m2: seq<nat>, frame: nat, origin: nat, src: nat, offset: nat,
                         dest: nat, threxit: nat)
    requires Chain(m, frame, origin, src) && src <= |m|
  {
    && |m2| == |m| && offset <= src
    && Top(m, frame, origin, src) - src + offset <= dest <= |m|
    && forall i: nat :: i < |m| ==> ForkedWord(m, m2, frame, origin, src, offset, dest, threxit, i)
  }

  /** Room below `dest` for the whole live region of the parent, away from that region. */
  ghost predicate Forkable(m: seq<nat>, frame: nat, origin: nat, src: nat, offset: nat, dest: nat)
    requires Chain(m, frame, origin, src)
  {
    var n := Top(m, frame, origin, src) - src + offset;
    offset <= src <= |m| && n < dest <= |m| && Disjoint(src - offset, dest - n, n)
  }

  /** The relocation does not touch the current frame. */
  lemma CurrentFrameKept(m: seq<nat>, m2: seq<nat>, frame: nat, origin: nat, src: nat, offset: nat,
                         dest: nat, threxit: nat)
    requires Chain(m, frame, origin, src) && offset <= src <= |m|
    requires Relocated(m, m2, frame, origin, src, dest, threxit)
    requires var n := Top(m, frame, origin, src) - src + offset;
             n <= dest && Disjoint(src - offset, dest - n, n)
    ensures m2[src - offset..src] == m[src - offset..src]
  {
    forall i | src - offset <= i < src
      ensures m2[i] == m[i]
    {
      assert MovedWord(m, m2, frame, origin, src, dest, threxit, i);
    }
  }

  /** The current frame, copied directly below the relocated stack, completes the image. */
  lemma CurrentFrameAdded(m: seq<nat>, copied: seq<nat>, m2: seq<nat>, frame: nat, origin: nat, src: nat,
                          offset: nat, dest: nat, threxit: nat, src0: nat, dest0: nat)
    requires Chain(m, frame, origin, src) && offset <= src <= |m|
    requires Relocated(m, copied, frame, origin, src, dest, threxit)
    requires var n := Top(m, frame, origin, src) - src + offset;
             && n <= dest && Disjoint(src - offset, dest - n, n)
             && src0 == src - offset && dest0 == dest - n
             && m2 == Copied(copied, dest0, src0, offset)
    ensures Forked(m, m2, frame, origin, src, offset, dest, threxit)
  {
    CurrentFrameKept(m, copied, frame, origin, src, offset, dest, threxit);
    forall i: nat | i < |m|
      ensures ForkedWord(m, m2, frame, origin, src, offset, dest, threxit, i)
    {
      assert MovedWord(m, copied, frame, origin, src, dest, threxit, i);
      var a := i - (dest - Top(m, frame, origin, src));
      if src - offset <= a < src {
        assert copied[src - offset..src][a - (src - offset)] == m[src - offset..src][a - (src - offset)];
      }
    }
  }

  /** Every frame of the parent is linked to its place in the child. */
  lemma ForkedLinks(m: seq<nat>, m2: seq<nat>, frame: nat, origin: nat, src: nat, offset: nat,
                    dest: nat, threxit: nat, a: nat)
    requires Chain(m, frame, origin, src) && src <= |m|
    requires Forked(m, m2, frame, origin, src, offset, dest, threxit)
    requires Top(m, frame, origin, src) - src + offset < dest
    requires a in Bases(m, frame, origin, src)
    ensures Linked(m, m2, dest, dest - Top(m, frame, origin, src), a)
  {
    BasesInRange(m, frame, origin, src, a);
    assert ForkedWord(m, m2, frame, origin, src, offset, dest, threxit, a + dest - Top(m, frame, origin, src));
    BasesLinked(m, m2, frame, origin, src, dest, threxit, a);
  }

  /** The last base, and that the word above it is none. */
  lemma {:induction false} LastBase(m: seq<nat>, frame: nat, origin: nat, src: nat)
    requires Chain(m, frame, origin, src) && src != 0 && src != frame
    ensures var b := Bases(m, frame, origin, src);
            var last := b[|b| - 1];
            src <= last && last + 2 <= Top(m, frame, origin, src) && last + 1 !in b
    decreases |m| - src
  {
    if m[src] != 0 && m[src] != frame {
      var outer := Bases(m, frame, origin, m[src]);
      assert Bases(m, frame, origin, src) == [src] + outer;
      LastBase(m, frame, origin, m[src]);
    }
  }

  lemma ChildImage(m: seq<nat>, m2: seq<nat>, frame: nat, origin: nat, src: nat, offset: nat,
                   dest: nat, threxit: nat, a: nat)
    requires Chain(m, frame, origin, src) && src <= |m|
    requires Forked(m, m2, frame, origin, src, offset, dest, threxit)
    requires src <= a < Top(m, frame, origin, src) <= |m|
    ensures var top := Top(m, frame, origin, src);
            && 0 <= a + dest - top < |m2|
            && m2[a + dest - top] == Image(m, Bases(m, frame, origin, src), top, dest, threxit, a)
  {
    assert ForkedWord(m, m2, frame, origin, src, offset, dest, threxit, a + dest - Top(m, frame, origin, src));
  }

  /** What the child has for a word of the parent's live region: a saved base pointer is moved
      by the constant, or made `dest` if it was 0; the return address of the outermost frame
      is `threxit`; every other word is as it was. */
  lemma ChildWord(m: seq<nat>, m2: seq<nat>, frame: nat, origin: nat, src: nat, offset: nat,
                  dest: nat, threxit: nat, a: nat)
    requires Chain(m, frame, origin, src) && src != 0 && src != frame && src <= |m|
    requires Forked(m, m2, frame, origin, src, offset, dest, threxit)
    requires src - offset <= a < Top(m, frame, origin, src)
    ensures var b, shift := Bases(m, frame, origin, src), dest - Top(m, frame, origin, src);
            && 0 <= a + shift < |m2|
            && (a in b && m[a] == 0 ==> m2[a + shift] == dest)
            && (a in b && m[a] != 0 ==> m2[a + shift] == m[a] + shift)
            && (a == b[|b| - 1] + 1 ==> m2[a + shift] == threxit)
            && (a !in b && a != b[|b| - 1] + 1 ==> m2[a + shift] == m[a])
  {
    LastBase(m, frame, origin, src);
    if a < src {
      if a in Bases(m, frame, origin, src) {
        BasesInRange(m, frame, origin, src, a);
      }
      assert ForkedWord(m, m2, frame, origin, src, offset, dest, threxit, a + dest - Top(m, frame, origin, src));
    } else {
      ChildImage(m, m2, frame, origin, src, offset, dest, threxit, a);
    }
  }

  /** Nothing outside the child's new stack is changed. */
  lemma RestKept(m: seq<nat>, m2: seq<nat>, frame: nat, origin: nat, src: nat, offset: nat,
                 dest: nat, threxit: nat, i: nat)
    requires Chain(m, frame, origin, src) && src <= |m| && i < |m|
    requires Forked(m, m2, frame, origin, src, offset, dest, threxit)
    requires i < dest - (Top(m, frame, origin, src) - src) - offset || dest <= i
    ensures m2[i] == m[i]
  {
    assert ForkedWord(m, m2, frame, origin, src, offset, dest, threxit, i);
  }

  /** Following saved base pointers in the child's stack visits the parent's frames, shifted. */
  lemma ForkedChain(m: seq<nat>, m2: seq<nat>, frame: nat, origin: nat, src: nat, offset: nat,
                    dest: nat, threxit: nat, src2: nat)
    requires Chain(m, frame, origin, src) && src <= |m|
    requires Forked(m, m2, frame, origin, src, offset, dest, threxit)
    requires Top(m, frame, origin, src) - src + offset < dest
    requires src2 == src + dest - Top(m, frame, origin, src)
    ensures ChainShifted(m, m2, frame, origin, src, src2, dest)
  {
    forall a | a in Bases(m, frame, origin, src) {
      ForkedLinks(m, m2, frame, origin, src, offset, dest, threxit, a);
    }
    ChainMoved(m, m2, frame, origin, src, src2, dest, dest - Top(m, frame, origin, src));
  }

  /** The second half of task_copy. */
  method AddCurrentFrame(mem: array<nat>, t: Thread)
    requires t.offset <= t.source <= mem.Length && t.offset <= t.dest <= mem.Length
    requires Disjoint(t.source - t.offset, t.dest - t.offset, t.offset)
    modifies mem, t`source, t`dest
    ensures t.source == old(t.source) - t.offset && t.dest == old(t.dest) - t.offset
    ensures mem[..] == Copied(old(mem[..]), t.dest, t.source, t.offset)
  {
    t.source := t.source - t.offset;
    t.dest := t.dest - t.offset;
    MemCpy(mem, t.dest, t.source, t.offset);
  }

  /** The child's stack is one contiguous image of the parent's, with its chain of frames. */
  ghost predicate ChildStack(m: seq<nat>, m2: seq<nat>, frame: nat, origin: nat, src: nat, offset: nat,
                             dest: nat, threxit: nat, src2: nat)
    requires Chain(m, frame, origin, src) && src <= |m|
  {
    && Forked(m, m2, frame, origin, src, offset, dest, threxit)
    && ChainShifted(m, m2, frame, origin, src, src2, dest)
  }

  lemma ChildStackBuilt(m: seq<nat>, copied: seq<nat>, m2: seq<nat>, frame: nat, origin: nat, src: nat,
                        offset: nat, dest: nat, threxit: nat, src0: nat, dest0: nat)
    requires Chain(m, frame, origin, src) && Forkable(m, frame, origin, src, offset, dest)
    requires Relocated(m, copied, frame, origin, src, dest, threxit)
    requires src0 == src - offset && dest0 == dest - (Top(m, frame, origin, src) - src0)
    requires m2 == Copied(copied, dest0, src0, offset)
    ensures ChildStack(m, m2, frame, origin, src, offset, dest, threxit, dest0 + offset)
  {
    CurrentFrameAdded(m, copied, m2, frame, origin, src, offset, dest, threxit, src0, dest0);
    ForkedChain(m, m2, frame, origin, src, offset, dest, threxit, dest0 + offset);
  }

  /** There is room for the copied frames, and below them for the current one. */
  lemma RoomForBoth(m: seq<nat>, frame: nat, origin: nat, src: nat, offset: nat, dest: nat)
    requires Chain(m, frame, origin, src) && Forkable(m, frame, origin, src, offset, dest)
    ensures var n := Top(m, frame, origin, src) - src;
            && 0 <= n && n + offset <= dest && Disjoint(src, dest - n, n)
            && Disjoint(src - offset, dest - n - offset, offset)
  {
  }

  /** The whole of task_copy, up to the thread control block. */
  method TaskCopy(mem: array<nat>, t: Thread, frame: nat, threxit: nat)
    requires Chain(mem[..], frame, t.origin, t.source)
    requires Forkable(mem[..], frame, t.origin, t.source, t.offset, t.dest)
    modifies mem, t`source, t`dest
    ensures t.source == old(t.source) - t.offset
    ensures t.dest == old(t.dest) - (Top(old(mem[..]), frame, t.origin, old(t.source)) - t.source)
    ensures ChildStack(old(mem[..]), mem[..], frame, t.origin, old(t.source), t.offset, old(t.dest), threxit,
                       t.dest + t.offset)
  {
    ghost var m, src, dest := mem[..], t.source, t.dest;
    RoomForBoth(m, frame, t.origin, src, t.offset, dest);
    var _ := CopyStack(mem, t, frame, threxit, t.origin, t.source);
    ghost var copied := mem[..];
    AddCurrentFrame(mem, t);
    ChildStackBuilt(m, copied, mem[..], frame, t.origin, src, t.offset, dest, threxit, t.source, t.dest);
  }
}
