/** The stream of interface messages of sysctl(NET_RT_IFLIST) (libposix/net/route.c, libposix/net/if_dl.c).

    Sizes are in bytes.  Those of the C structures depend on the system's headers and are
    parameters: all that matters is that a header holds its own first eight bytes. */
module Route {
  type Byte = b: int | 0 <= b < 256 witness 0

  const LIMIT16: int := 0x10000

  /** sizeof(SOCKADDR_STORAGE): no socket address of Windows is longer. */
  const MAX_SOCKADDR: nat := 128

  /** sizeof(struct if_msghdr), sizeof(struct ifa_msghdr) and sizeof(struct sockaddr_dl). */
  datatype Sizes = Sizes(ifHdr: nat, ifaHdr: nat, sdl: nat)
  {
    predicate Valid() {
      8 <= ifHdr && 8 <= ifaHdr && ifaHdr + MAX_SOCKADDR < LIMIT16 && 8 <= sdl && ifHdr + sdl < LIMIT16
    }

    /** IFMSGLEN */
    function IfMsgLen(): nat { ifHdr + sdl }
  }

  const RTM_VERSION: Byte := 5
  const RTM_NEWADDR: Byte := 12
  const RTM_IFINFO: Byte := 14

  /** A unicast address of an adapter: two bytes for its family, translated, and the data. */
  datatype Address = Address(family: Byte, data: seq<Byte>)
  {
    function Length(): nat { 2 + |data| }
  }

  /** `link` is the content of the link-level socket address. */
  datatype Adapter = Adapter(index: nat, link: seq<Byte>, unicast: seq<Address>)

  predicate ShortAddresses(unicast: seq<Address>) {
    forall i :: 0 <= i < |unicast| ==> unicast[i].Length() <= MAX_SOCKADDR
  }

  /** All addresses are socket addresses of Windows. */
  predicate Short(adapters: seq<Adapter>) {
    forall i :: 0 <= i < |adapters| ==> ShortAddresses(adapters[i].unicast)
  }

  // ---------- the size pass ----------

  function AddressesSize(z: Sizes, unicast: seq<Address>): nat {
    if unicast == [] then 0 else z.ifaHdr + unicast[0].Length() + AddressesSize(z, unicast[1..])
  }

  /** ifmsg_size() */
  method IfMsgSize(z: Sizes, unicast: seq<Address>) returns (result: nat)
    ensures result == z.IfMsgLen() + AddressesSize(z, unicast)
  {
    result := z.IfMsgLen();
    var rest := unicast;
    while rest != []
      invariant result + AddressesSize(z, rest) == z.IfMsgLen() + AddressesSize(z, unicast)
      decreases |rest|
    {
      result := result + z.ifaHdr;
      result := result + rest[0].Length();
      rest := rest[1..];
    }
  }

  function ListSize(z: Sizes, adapters: seq<Adapter>): nat {
    if adapters == [] then 0
    else z.IfMsgLen() + AddressesSize(z, adapters[0].unicast) + ListSize(z, adapters[1..])
  }

  // ---------- headers in a buffer ----------

  /** What a reader sees in the first bytes of a message. */
  datatype Header = Header(msglen: int, version: int, kind: int, hdrlen: int, index: int)

  function Word(b: seq<Byte>, i: nat): (w: int)
    requires i + 2 <= |b|
    ensures 0 <= w < LIMIT16
  {
    b[i] as int + 256 * (b[i + 1] as int)
  }

  function HeaderAt(b: seq<Byte>, i: nat): Header
    requires i + 8 <= |b|
  {
    Header(Word(b, i), b[i + 2], b[i + 3], Word(b, i + 4), Word(b, i + 6))
  }

  /** What is left of a header in its 16-bit fields. */
  function Stored(h: Header): Header {
    h.(msglen := h.msglen % LIMIT16, hdrlen := h.hdrlen % LIMIT16, index := h.index % LIMIT16)
  }

  lemma ModIs(x: int, k: int, r: int)
    requires x == 65536 * k + r && 0 <= r < 65536
    ensures x % 65536 == r
  {
  }

  lemma WordSplit(x: nat)
    ensures x % LIMIT16 == x % 256 + 256 * (x / 256 % 256)
  {
    var q := x / 256;
    var r := 256 * (q % 256) + x % 256;
    assert 0 <= r < 65536 && x == 65536 * (q / 256) + r;
    ModIs(x, q / 256, r);
  }

  method PutWord(buf: array<Byte>, i: nat, value: nat)
    requires i + 2 <= buf.Length
    modifies buf
    ensures Word(buf[..], i) == value % LIMIT16
    ensures forall j {:trigger buf[j]} :: 0 <= j < buf.Length && !(i <= j < i + 2) ==> buf[j] == old(buf[j])
  {
    WordSplit(value);
    var low, high := value % 256, value / 256 % 256;
    buf[i] := low;
    buf[i + 1] := high;
  }

  method PutHeader(buf: array<Byte>, i: nat, h: Header)
    requires i + 8 <= buf.Length && 0 <= h.msglen && 0 <= h.hdrlen && 0 <= h.index
    requires 0 <= h.version < 256 && 0 <= h.kind < 256
    modifies buf
    ensures HeaderAt(buf[..], i) == Stored(h)
    ensures forall j {:trigger buf[j]} :: 0 <= j < buf.Length && !(i <= j < i + 8) ==> buf[j] == old(buf[j])
  {
    PutWord(buf, i, h.msglen);
    buf[i + 2] := h.version;
    buf[i + 3] := h.kind;
    PutWord(buf, i + 4, h.hdrlen);
    PutWord(buf, i + 6, h.index);
  }

  method PutBytes(buf: array<Byte>, i: nat, bytes: seq<Byte>)
    requires i + |bytes| <= buf.Length
    modifies buf
    ensures buf[i..i + |bytes|] == bytes
    ensures forall j {:trigger buf[j]} :: 0 <= j < buf.Length && !(i <= j < i + |bytes|) ==> buf[j] == old(buf[j])
  {
    var k := 0;
    while k < |bytes|
      invariant k <= |bytes| && buf[i..i + k] == bytes[..k]
      invariant forall j {:trigger buf[j]} :: 0 <= j < buf.Length && !(i <= j < i + k) ==> buf[j] == old(buf[j])
    {
      buf[i + k] := bytes[k];
      k := k + 1;
    }
  }

  // ---------- the fill pass ----------

  function AddressHeader(z: Sizes, index: nat, a: Address): Header {
    Header(z.ifaHdr + a.Length(), RTM_VERSION, RTM_NEWADDR, z.ifaHdr, index)
  }

  function AddressHeaders(z: Sizes, index: nat, unicast: seq<Address>): seq<Header> {
    if unicast == [] then [] else [AddressHeader(z, index, unicast[0])] + AddressHeaders(z, index, unicast[1..])
  }

  function InterfaceHeader(z: Sizes, index: nat): Header {
    Header(z.IfMsgLen(), RTM_VERSION, RTM_IFINFO, z.ifHdr, index)
  }

  function AdapterHeaders(z: Sizes, a: Adapter): seq<Header> {
    [InterfaceHeader(z, a.index)] + AddressHeaders(z, a.index, a.unicast)
  }

  /** The headers that a list of adapters should produce, with their true lengths. */
  function ListHeaders(z: Sizes, adapters: seq<Adapter>): seq<Header> {
    if adapters == [] then []
    else AdapterHeaders(z, adapters[0]) + ListHeaders(z, adapters[1..])
  }

  /** The messages of `headers` lie one after the other from `pos` to `end`. */
  ghost predicate Laid(b: seq<Byte>, pos: nat, headers: seq<Header>, end: nat)
    decreases |headers|
  {
    if headers == [] then pos == end <= |b|
    else
      && 8 <= headers[0].msglen && pos + headers[0].msglen <= |b|
      && HeaderAt(b, pos) == Stored(headers[0])
      && Laid(b, pos + headers[0].msglen, headers[1..], end)
  }

  /** Two bytes make a word, the lower one first. */
  lemma WordIs(b: seq<Byte>, i: nat)
    requires i + 8 <= |b|
    ensures Word(b, i) == b[i] as int + 256 * (b[i + 1] as int)
    ensures HeaderAt(b, i) == Header(b[i] as int + 256 * (b[i + 1] as int), b[i + 2], b[i + 3],
                                     b[i + 4] as int + 256 * (b[i + 5] as int), b[i + 6] as int + 256 * (b[i + 7] as int))
  {
  }

  /** The bytes that the messages of some headers take. */
  function Lengths(headers: seq<Header>): int {
    if headers == [] then 0 else headers[0].msglen + Lengths(headers[1..])
  }

  lemma {:induction false} LengthsJoin(a: seq<Header>, b: seq<Header>)
    ensures Lengths(a + b) == Lengths(a) + Lengths(b)
  {
    if a == [] {
      assert a + b == b;
    } else {
      assert (a + b)[1..] == a[1..] + b;
      LengthsJoin(a[1..], b);
    }
  }

  lemma {:induction false} AddressLengths(z: Sizes, index: nat, unicast: seq<Address>)
    ensures Lengths(AddressHeaders(z, index, unicast)) == AddressesSize(z, unicast)
  {
    if unicast != [] {
      AddressLengths(z, index, unicast[1..]);
    }
  }

  /** The size of the list is the sum of its message lengths. */
  lemma {:induction false} ListLengths(z: Sizes, adapters: seq<Adapter>)
    ensures Lengths(ListHeaders(z, adapters)) == ListSize(z, adapters)
  {
    if adapters != [] {
      AddressLengths(z, adapters[0].index, adapters[0].unicast);
      ListLengths(z, adapters[1..]);
      LengthsJoin(AdapterHeaders(z, adapters[0]), ListHeaders(z, adapters[1..]));
    }
  }

  lemma {:induction false} AddressHeadersAre(z: Sizes, index: nat, unicast: seq<Address>)
    ensures var h := AddressHeaders(z, index, unicast);
            && |h| == |unicast|
            && forall k :: 0 <= k < |unicast| ==> h[k] == Header(z.ifaHdr + 2 + |unicast[k].data|, 5, 12, z.ifaHdr, index)
  {
    if unicast != [] {
      AddressHeadersAre(z, index, unicast[1..]);
    }
  }

  /** The messages of one adapter: one of the interface, and then one for each of its addresses
      in order, with the version and kinds that the reader knows. */
  lemma AdapterHeadersAre(z: Sizes, a: Adapter, k: nat)
    requires k <= |a.unicast|
    ensures var h := AdapterHeaders(z, a);
            && |h| == 1 + |a.unicast|
            && h[0] == Header(z.ifHdr + z.sdl, 5, 14, z.ifHdr, a.index)
            && (k > 0 ==> h[k] == Header(z.ifaHdr + 2 + |a.unicast[k - 1].data|, 5, 12, z.ifaHdr, a.index))
  {
    AddressHeadersAre(z, a.index, a.unicast);
  }

  /** The list is that of its adapters, one after the other. */
  lemma {:induction false} ListHeadersJoin(z: Sizes, a: seq<Adapter>, b: seq<Adapter>)
    ensures ListHeaders(z, a + b) == ListHeaders(z, a) + ListHeaders(z, b)
    ensures |a| == 1 ==> ListHeaders(z, a) == AdapterHeaders(z, a[0])
  {
    if a == [] {
      assert a + b == b;
    } else {
      assert (a + b)[1..] == a[1..] + b;
      ListHeadersJoin(z, a[1..], b);
    }
  }

  lemma {:induction false} LaidForward(b: seq<Byte>, pos: nat, headers: seq<Header>, end: nat)
    requires Laid(b, pos, headers, end)
    ensures pos <= end <= |b|
    decreases |headers|
  {
    if headers != [] {
      LaidForward(b, pos + headers[0].msglen, headers[1..], end);
    }
  }

  lemma {:induction false} LaidKept(b: seq<Byte>, c: seq<Byte>, pos: nat, headers: seq<Header>, end: nat)
    requires Laid(b, pos, headers, end) && |b| == |c| && end <= |b|
    requires forall j {:trigger c[j]} :: pos <= j < end ==> c[j] == b[j]
    ensures Laid(c, pos, headers, end) && pos <= end <= |c|
    decreases |headers|
  {
    if headers != [] {
      LaidForward(b, pos + headers[0].msglen, headers[1..], end);
      LaidKept(b, c, pos + headers[0].msglen, headers[1..], end);
    }
  }

  lemma {:induction false} LaidJoin(b: seq<Byte>, pos: nat, h1: seq<Header>, mid: nat, h2: seq<Header>, end: nat)
    requires Laid(b, pos, h1, mid) && Laid(b, mid, h2, end)
    ensures Laid(b, pos, h1 + h2, end)
    decreases |h1|
  {
    if h1 == [] {
      assert h1 + h2 == h2;
    } else {
      LaidJoin(b, pos + h1[0].msglen, h1[1..], mid, h2, end);
      assert (h1 + h2)[1..] == h1[1..] + h2;
    }
  }

  /** ifamsg_posix() */
  method IfaMsg(z: Sizes, buf: array<Byte>, pos: nat, index: nat, a: Address) returns (end: nat)
    requires z.Valid() && pos + z.ifaHdr + a.Length() <= buf.Length
    modifies buf
    ensures end == pos + z.ifaHdr + a.Length()
    ensures Laid(buf[..], pos, [AddressHeader(z, index, a)], end)
    ensures buf[pos + z.ifaHdr + 2..end] == a.data && buf[pos + z.ifaHdr + 1] == a.family
    ensures buf[pos + z.ifaHdr] == a.Length() % 256
    ensures forall j {:trigger buf[j]} :: 0 <= j < buf.Length && !(pos <= j < end) ==> buf[j] == old(buf[j])
  {
    var length := a.Length();
    PutHeader(buf, pos, Header(z.ifaHdr + length, RTM_VERSION, RTM_NEWADDR, z.ifaHdr, index));
    ghost var b := buf[..];
    var p := pos + z.ifaHdr;
    PutBytes(buf, p, [length % 256, a.family] + a.data);
    assert buf[p..p + length][2..] == buf[p + 2..p + length];
    assert buf[p..p + length][0] == buf[p] && buf[p..p + length][1] == buf[p + 1];
    end := p + length;
    assert HeaderAt(buf[..], pos) == HeaderAt(b, pos);
  }

  /** One address message behind those that are there. */
  method AppendAddress(z: Sizes, buf: array<Byte>, start: nat, pos: nat, index: nat, a: Address, ghost done: seq<Header>)
    returns (end: nat)
    requires z.Valid() && start <= pos && pos + z.ifaHdr + a.Length() <= buf.Length
    requires Laid(buf[..], start, done, pos)
    modifies buf
    ensures end == pos + z.ifaHdr + a.Length()
    ensures Laid(buf[..], start, done + [AddressHeader(z, index, a)], end)
    ensures forall j {:trigger buf[j]} :: 0 <= j < buf.Length && !(pos <= j < end) ==> buf[j] == old(buf[j])
  {
    end := IfaMsg(z, buf, pos, index, a);
    LaidKept(old(buf[..]), buf[..], start, done, pos);
    LaidJoin(buf[..], start, done, pos, [AddressHeader(z, index, a)], end);
  }

  /** The loop of ifmsg_posix(). */
  method IfaMsgs(z: Sizes, buf: array<Byte>, pos: nat, index: nat, unicast: seq<Address>) returns (end: nat)
    requires z.Valid() && pos + AddressesSize(z, unicast) <= buf.Length
    modifies buf
    ensures end == pos + AddressesSize(z, unicast)
    ensures Laid(buf[..], pos, AddressHeaders(z, index, unicast), end)
    ensures forall j {:trigger buf[j]} :: 0 <= j < buf.Length && !(pos <= j < end) ==> buf[j] == old(buf[j])
  {
    end := pos;
    var rest := unicast;
    ghost var done: seq<Header> := [];
    while rest != []
      invariant end + AddressesSize(z, rest) == pos + AddressesSize(z, unicast)
      invariant pos <= end && Laid(buf[..], pos, done, end)
      invariant AddressHeaders(z, index, unicast) == done + AddressHeaders(z, index, rest)
      invariant forall j {:trigger buf[j]} :: 0 <= j < buf.Length && !(pos <= j < end) ==> buf[j] == old(buf[j])
      decreases |rest|
    {
      end := AppendAddress(z, buf, pos, end, index, rest[0], done);
      done := done + [AddressHeader(z, index, rest[0])];
      rest := rest[1..];
    }
    assert done == AddressHeaders(z, index, unicast);
  }

  /** ifmsg_posix() */
  method IfMsg(z: Sizes, buf: array<Byte>, pos: nat, a: Adapter) returns (end: nat)
    requires z.Valid() && |a.link| <= z.sdl
    requires pos + z.IfMsgLen() + AddressesSize(z, a.unicast) <= buf.Length
    modifies buf
    ensures end == pos + z.IfMsgLen() + AddressesSize(z, a.unicast)
    ensures Laid(buf[..], pos, AdapterHeaders(z, a), end)
    ensures buf[pos + z.ifHdr..pos + z.ifHdr + |a.link|] == a.link
    ensures forall j {:trigger buf[j]} :: 0 <= j < buf.Length && !(pos <= j < end) ==> buf[j] == old(buf[j])
  {
    PutHeader(buf, pos, Header(z.IfMsgLen(), RTM_VERSION, RTM_IFINFO, z.ifHdr, a.index));
    ghost var b := buf[..];
    PutBytes(buf, pos + z.ifHdr, a.link);
    assert HeaderAt(buf[..], pos) == HeaderAt(b, pos);
    ghost var mid, head := pos + z.IfMsgLen(), [InterfaceHeader(z, a.index)];
    ghost var before := buf[..];
    end := IfaMsgs(z, buf, pos + z.IfMsgLen(), a.index, a.unicast);
    assert buf[pos + z.ifHdr..pos + z.ifHdr + |a.link|] == before[pos + z.ifHdr..pos + z.ifHdr + |a.link|];
    LaidKept(before, buf[..], pos, head, mid);
    LaidJoin(buf[..], pos, head, mid, AddressHeaders(z, a.index, a.unicast), end);
  }

  /** One adapter's messages behind those that are there. */
  method AppendAdapter(z: Sizes, buf: array<Byte>, pos: nat, a: Adapter, ghost done: seq<Header>) returns (end: nat)
    requires z.Valid() && |a.link| <= z.sdl && Laid(buf[..], 0, done, pos)
    requires pos + z.IfMsgLen() + AddressesSize(z, a.unicast) <= buf.Length
    modifies buf
    ensures end == pos + z.IfMsgLen() + AddressesSize(z, a.unicast)
    ensures Laid(buf[..], 0, done + AdapterHeaders(z, a), end)
    ensures forall j {:trigger buf[j]} :: end <= j < buf.Length ==> buf[j] == old(buf[j])
  {
    end := IfMsg(z, buf, pos, a);
    LaidKept(old(buf[..]), buf[..], 0, done, pos);
    LaidJoin(buf[..], 0, done, pos, AdapterHeaders(z, a), end);
  }

  lemma HeadersNext(z: Sizes, done: seq<Header>, rest: seq<Adapter>)
    requires rest != []
    ensures done + ListHeaders(z, rest) == done + AdapterHeaders(z, rest[0]) + ListHeaders(z, rest[1..])
  {
  }

  /** The fill pass of route_NET_RT_IFLIST(). */
  method FillList(z: Sizes, buf: array<Byte>, adapters: seq<Adapter>) returns (end: nat)
    requires z.Valid() && ListSize(z, adapters) <= buf.Length
    requires forall i :: 0 <= i < |adapters| ==> |adapters[i].link| <= z.sdl
    modifies buf
    ensures end == ListSize(z, adapters)
    ensures Laid(buf[..], 0, ListHeaders(z, adapters), end)
    ensures forall j {:trigger buf[j]} :: end <= j < buf.Length ==> buf[j] == old(buf[j])
  {
    end := 0;
    var rest := adapters;
    ghost var done: seq<Header> := [];
    while rest != []
      invariant end + ListSize(z, rest) == ListSize(z, adapters)
      invariant Laid(buf[..], 0, done, end)
      invariant ListHeaders(z, adapters) == done + ListHeaders(z, rest)
      invariant forall i :: 0 <= i < |rest| ==> |rest[i].link| <= z.sdl
      invariant forall j {:trigger buf[j]} :: end <= j < buf.Length ==> buf[j] == old(buf[j])
      decreases |rest|
    {
      HeadersNext(z, done, rest);
      end := AppendAdapter(z, buf, end, rest[0], done);
      done := done + AdapterHeaders(z, rest[0]);
      rest := rest[1..];
    }
    assert done == ListHeaders(z, adapters);
  }

  /** The size pass of route_NET_RT_IFLIST(). */
  method SizeList(z: Sizes, adapters: seq<Adapter>) returns (size: nat)
    ensures size == ListSize(z, adapters)
  {
    size := 0;
    var rest := adapters;
    while rest != []
      invariant size + ListSize(z, rest) == ListSize(z, adapters)
      decreases |rest|
    {
      var n := IfMsgSize(z, rest[0].unicast);
      size := size + n;
      rest := rest[1..];
    }
  }

  // ---------- the reader ----------

  /** What a reader meets who steps from header to header by message length, and where it stops. */
  datatype Reading = Reading(headers: seq<Header>, stop: nat)

  function Read(b: seq<Byte>, pos: nat, end: nat): (r: Reading)
    requires end <= |b|
    ensures forall i :: 0 <= i < |r.headers| ==> r.headers[i].msglen < LIMIT16
    decreases end - pos
  {
    if pos >= end || pos + 8 > end || HeaderAt(b, pos).msglen == 0 then Reading([], pos)
    else
      var rest := Read(b, pos + HeaderAt(b, pos).msglen, end);
      Reading([HeaderAt(b, pos)] + rest.headers, rest.stop)
  }

  predicate FitsHeader(h: Header) {
    h.msglen < LIMIT16
  }

  predicate InRange16(h: Header) {
    0 <= h.hdrlen < LIMIT16 && 0 <= h.index < LIMIT16
  }

  lemma StoredSame(h: Header)
    requires 0 <= h.msglen && FitsHeader(h) && InRange16(h)
    ensures Stored(h) == h
  {
  }

  lemma {:induction false} LaidIsRead(b: seq<Byte>, pos: nat, headers: seq<Header>, end: nat)
    requires Laid(b, pos, headers, end) && end <= |b|
    requires forall i :: 0 <= i < |headers| ==> FitsHeader(headers[i]) && InRange16(headers[i])
    ensures Read(b, pos, end) == Reading(headers, end)
    decreases |headers|
  {
    if headers != [] {
      var next := pos + headers[0].msglen;
      LaidForward(b, next, headers[1..], end);
      LaidIsRead(b, next, headers[1..], end);
      StoredSame(headers[0]);
      assert HeaderAt(b, pos) == headers[0];
      assert headers == [headers[0]] + headers[1..];
    }
  }

  /** A reader of a filled buffer meets exactly the expected headers and stops exactly at the
      end, if and only if no message is too long for its 16-bit length field. */
  lemma ReaderMeetsAll(b: seq<Byte>, headers: seq<Header>, end: nat)
    requires Laid(b, 0, headers, end) && end <= |b|
    requires forall i :: 0 <= i < |headers| ==> InRange16(headers[i])
    ensures Read(b, 0, end) == Reading(headers, end) <==> forall i :: 0 <= i < |headers| ==> FitsHeader(headers[i])
  {
    if forall i :: 0 <= i < |headers| ==> FitsHeader(headers[i]) {
      LaidIsRead(b, 0, headers, end);
    }
  }

  lemma {:induction false} ShortFit(z: Sizes, index: nat, unicast: seq<Address>)
    requires z.Valid() && ShortAddresses(unicast)
    ensures forall h :: h in AddressHeaders(z, index, unicast) ==> FitsHeader(h)
  {
    if unicast != [] {
      ShortFit(z, index, unicast[1..]);
    }
  }

  lemma {:induction false} ListFits(z: Sizes, adapters: seq<Adapter>)
    requires z.Valid() && Short(adapters)
    ensures forall h :: h in ListHeaders(z, adapters) ==> FitsHeader(h)
  {
    if adapters != [] {
      ShortFit(z, adapters[0].index, adapters[0].unicast);
      ListFits(z, adapters[1..]);
    }
  }

  lemma {:induction false} AddressHeadersInRange(z: Sizes, index: nat, unicast: seq<Address>)
    requires z.Valid() && index < LIMIT16
    ensures forall i :: 0 <= i < |AddressHeaders(z, index, unicast)| ==> InRange16(AddressHeaders(z, index, unicast)[i])
  {
    if unicast != [] {
      AddressHeadersInRange(z, index, unicast[1..]);
    }
  }

  lemma {:induction false} ListHeadersInRange(z: Sizes, adapters: seq<Adapter>)
    requires z.Valid() && forall i :: 0 <= i < |adapters| ==> adapters[i].index < LIMIT16
    ensures forall i :: 0 <= i < |ListHeaders(z, adapters)| ==> InRange16(ListHeaders(z, adapters)[i])
  {
    if adapters != [] {
      AddressHeadersInRange(z, adapters[0].index, adapters[0].unicast);
      ListHeadersInRange(z, adapters[1..]);
    }
  }

  /** A reader of the filled list of socket addresses that Windows has meets every message of
      every adapter, and stops exactly at the size that the size pass predicted. */
  lemma ReaderMeetsList(z: Sizes, adapters: seq<Adapter>, b: seq<Byte>)
    requires z.Valid() && Short(adapters) && forall i :: 0 <= i < |adapters| ==> adapters[i].index < LIMIT16
    requires Laid(b, 0, ListHeaders(z, adapters), ListSize(z, adapters)) && ListSize(z, adapters) <= |b|
    ensures Read(b, 0, ListSize(z, adapters)) == Reading(ListHeaders(z, adapters), ListSize(z, adapters))
  {
    ListHeadersInRange(z, adapters);
    ListFits(z, adapters);
    ReaderMeetsAll(b, ListHeaders(z, adapters), ListSize(z, adapters));
  }

  /** The two passes and a reader together: the size pass predicts the bytes that the fill
      pass writes, and the reader finds every message. */
  method Enumerate(z: Sizes, adapters: seq<Adapter>) returns (buf: array<Byte>, size: nat)
    requires z.Valid()
    requires forall i :: 0 <= i < |adapters| ==> |adapters[i].link| <= z.sdl && adapters[i].index < LIMIT16
    ensures fresh(buf) && buf.Length == size == ListSize(z, adapters)
    ensures Laid(buf[..], 0, ListHeaders(z, adapters), size)
    ensures Read(buf[..], 0, size) == Reading(ListHeaders(z, adapters), size) <==>
            forall i :: 0 <= i < |ListHeaders(z, adapters)| ==> FitsHeader(ListHeaders(z, adapters)[i])
    ensures Short(adapters) ==> Read(buf[..], 0, size) == Reading(ListHeaders(z, adapters), size)
  {
    size := SizeList(z, adapters);
    buf := new Byte[size](_ => 0);
    var end := FillList(z, buf, adapters);
    ListHeadersInRange(z, adapters);
    ReaderMeetsAll(buf[..], ListHeaders(z, adapters), size);
    if Short(adapters) {
      ReaderMeetsList(z, adapters, buf[..]);
    }
  }
}
