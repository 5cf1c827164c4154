/**
 Capture files of irdadump (capture.c), and the loop that writes and replays them (irdadump.c).

 The file is in the "pcap" format with a Linux "cooked" header before every frame. Integers are
 written as they lie in memory, so the byte order of the host is a parameter.
 */
module Captures {
  import opened Bytes
  import opened NetBufs

  // ---- Integers in memory ----

  datatype Order = LittleEndian | BigEndian

  function Turn(o: Order, s: seq<byte>): (r: seq<byte>)
    ensures |r| == |s|
  {
    if o.BigEndian? then s
    else if |s| == 2 then [s[1], s[0]]
    else if |s| == 4 then [s[3], s[2], s[1], s[0]]
    else s
  }

  function Raw16(o: Order, n: int): (s: seq<byte>)
    requires 0 <= n < 0x1_0000
    ensures |s| == 2 && Load16(o, s) == n
  {
    assert Turn(o, Turn(o, Be16(n))) == Be16(n);
    Turn(o, Be16(n))
  }

  function Load16(o: Order, s: seq<byte>): (n: nat)
    requires |s| == 2
    ensures n < 0x1_0000
  {
    FromBe16(Turn(o, s))
  }

  function Raw32(o: Order, n: int): (s: seq<byte>)
    requires 0 <= n < 0x1_0000_0000
    ensures |s| == 4 && Load32(o, s) == n
  {
    assert Turn(o, Turn(o, Be32(n))) == Be32(n);
    Turn(o, Be32(n))
  }

  function Load32(o: Order, s: seq<byte>): (n: nat)
    requires |s| == 4
    ensures n < 0x1_0000_0000
  {
    FromBe32(Turn(o, s))
  }

  lemma RawLoad16(o: Order, s: seq<byte>)
    requires |s| == 2
    ensures Raw16(o, Load16(o, s)) == s
  {
    assert Be16(Load16(o, s)) == Turn(o, s);
  }

  lemma RawLoad32(o: Order, s: seq<byte>)
    requires |s| == 4
    ensures Raw32(o, Load32(o, s)) == s
  {
    var t := Turn(o, s);
    Be32FromBe32(t);
    assert Turn(o, t) == s;
  }

  lemma Be32FromBe32(t: seq<byte>)
    requires |t| == 4
    ensures Be32(FromBe32(t)) == t
  {
    var high, low := FromBe16(t[..2]), FromBe16(t[2..]);
    Halves(high, low);
    Be16FromBe16(t[..2]);
    Be16FromBe16(t[2..]);
    hide FromBe16, Be16;
    assert t == t[..2] + t[2..];
  }

  lemma Be16FromBe16(t: seq<byte>)
    requires |t| == 2
    ensures Be16(FromBe16(t)) == t
  {
  }

  function Htons(o: Order, n: int): (r: nat)
    requires 0 <= n < 0x1_0000
    ensures r < 0x1_0000 && Raw16(o, r) == Be16(n)
  {
    var r := if o.BigEndian? then n else n % 256 * 256 + n / 256;
    Swapped(n);
    r
  }

  lemma Swapped(n: int)
    requires 0 <= n < 0x1_0000
    ensures var r := n % 256 * 256 + n / 256;
            r < 0x1_0000 && r / 256 == n % 256 && r % 256 == n / 256
  {
  }

  // ---- The file header ----

  const MAGIC := 0xa1b2_c3d4
  const VERSION_MAJOR := 2
  const VERSION_MINOR := 0
  const SNAPLEN := 2066
  const DLT_LINUX_IRDA := 144
  const HEADER_SIZE := 24

  function HeaderOctets(o: Order): (s: seq<byte>)
    ensures |s| == HEADER_SIZE
  {
    Raw32(o, MAGIC) + Raw16(o, VERSION_MAJOR) + Raw16(o, VERSION_MINOR) +
    Raw32(o, 0) + Raw32(o, 0) + Raw32(o, SNAPLEN) + Raw32(o, DLT_LINUX_IRDA)
  }

  lemma RawInOctets(a: byte, b: byte, c: byte, d: byte)
    ensures var n := 0x100_0000 * a + 0x1_0000 * b + 0x100 * c + d;
            0 <= n < 0x1_0000_0000 && Raw32(BigEndian, n) == [a, b, c, d] && Raw32(LittleEndian, n) == [d, c, b, a]
    ensures var n := 0x100 * c + d;
            0 <= n < 0x1_0000 && Raw16(BigEndian, n) == [c, d] && Raw16(LittleEndian, n) == [d, c]
  {
    MostSignificantFirst(a, b, c, d);
    MostSignificantFirst(c, d, a, b);
  }

  /** The file header, octet by octet, on hosts of either kind. */
  lemma HeaderInOctets(o: Order)
    ensures HeaderOctets(o) ==
            match o
            case LittleEndian =>
              [0xd4, 0xc3, 0xb2, 0xa1] + [2, 0] + [0, 0] + [0, 0, 0, 0] + [0, 0, 0, 0] +
              [0x12, 0x08, 0, 0] + [0x90, 0, 0, 0]
            case BigEndian =>
              [0xa1, 0xb2, 0xc3, 0xd4] + [0, 2] + [0, 0] + [0, 0, 0, 0] + [0, 0, 0, 0] +
              [0, 0, 0x08, 0x12] + [0, 0, 0, 0x90]
  {
    hide Raw32, Raw16, Load16, Load32;
    RawInOctets(0xa1, 0xb2, 0xc3, 0xd4);
    RawInOctets(0, 0, 0, 2);
    RawInOctets(0, 0, 0, 0);
    RawInOctets(0, 0, 0x08, 0x12);
    RawInOctets(0, 0, 0, 0x90);
  }

  predicate Accepts(o: Order, s: seq<byte>) {
    && |s| >= HEADER_SIZE
    && Load32(o, s[0..4]) == MAGIC
    && Load16(o, s[4..6]) == VERSION_MAJOR
    && Load16(o, s[6..8]) == VERSION_MINOR
    && Load32(o, s[20..24]) == DLT_LINUX_IRDA
  }

  /** A file is accepted if and only if it starts like one of this host's, time zone, accuracy and size limit aside. */
  lemma AcceptsIff(o: Order, s: seq<byte>)
    ensures var h := HeaderOctets(o);
            Accepts(o, s) <==> |s| >= HEADER_SIZE && s[..8] == h[..8] && s[20..24] == h[20..24]
  {
    hide HeaderOctets, Load16, Load32, Raw16, Raw32;
    HeaderFields(o);
    if |s| >= HEADER_SIZE {
      Fields(s, HeaderOctets(o));
      RawLoad32(o, s[0..4]);
      RawLoad16(o, s[4..6]);
      RawLoad16(o, s[6..8]);
      RawLoad32(o, s[20..24]);
    }
  }

  lemma HeaderFields(o: Order)
    ensures var h := HeaderOctets(o);
            && h[0..4] == Raw32(o, MAGIC) && h[4..6] == Raw16(o, VERSION_MAJOR)
            && h[6..8] == Raw16(o, VERSION_MINOR) && h[20..24] == Raw32(o, DLT_LINUX_IRDA)
  {
    hide Raw16, Raw32, Load16, Load32;
  }

  lemma Fields(s: seq<byte>, t: seq<byte>)
    requires |s| >= 8 && |t| >= 8
    ensures s[..8] == t[..8] <==> s[0..4] == t[0..4] && s[4..6] == t[4..6] && s[6..8] == t[6..8]
  {
    assert s[..8] == s[0..4] + s[4..6] + s[6..8] && t[..8] == t[0..4] + t[4..6] + t[6..8];
    if s[..8] == t[..8] {
      Front8(s);
      Front8(t);
    }
  }

  lemma Front8(s: seq<byte>)
    requires |s| >= 8
    ensures s[..8][0..4] == s[0..4] && s[..8][4..6] == s[4..6] && s[..8][6..8] == s[6..8]
  {
    assert s[..8] == s[0..8];
    SliceOfSlice(s, 0, 8, 0, 4);
    SliceOfSlice(s, 0, 8, 4, 6);
    SliceOfSlice(s, 0, 8, 6, 8);
  }

  /** A file is accepted on the hosts that have the byte order of its writer, and on no others. */
  lemma OnlyItsOwn(writer: Order, reader: Order, rest: seq<byte>)
    ensures Accepts(reader, HeaderOctets(writer) + rest) <==> reader == writer
  {
    FirstOctet(reader);
    FirstOctet(writer);
    AcceptsIff(reader, HeaderOctets(writer) + rest);
    hide HeaderOctets, Accepts;
    var h := HeaderOctets(writer);
    assert (h + rest)[..8] == h[..8] && (h + rest)[20..24] == h[20..24];
  }

  lemma FirstOctet(o: Order)
    ensures HeaderOctets(o)[..8][0] == if o.BigEndian? then 0xa1 else 0xd4
  {
    MagicOctets();
    hide Be32, Raw16, Load16, Load32;
    assert HeaderOctets(o)[0] == Raw32(o, MAGIC)[0];
  }

  lemma MagicOctets()
    ensures Be32(MAGIC)[0] == 0xa1 && Be32(MAGIC)[3] == 0xd4
  {
    assert MAGIC / 0x1_0000 == 0xa1b2 && MAGIC % 0x1_0000 == 0xc3d4;
    assert 0xa1b2 / 256 == 0xa1 && 0xc3d4 % 256 == 0xd4;
  }

  // ---- The frames ----

  const ETH_P_IRDA := 0x0017
  const PACKET_HOST := 0
  const PACKET_OUTGOING := 4
  const SLL_ADDRLEN := 8
  const MAX_FRAME_SIZE := 2050
  const RECORD_SIZE := 16
  const SLL_SIZE := 16

  type word = n: int | 0 <= n < 0x1_0000

  /** Where a frame came from (struct sockaddr_ll); `protocol` is the field as the host reads it. */
  datatype Sockaddr = Sockaddr(protocol: word, ifindex: int, hatype: word, pkttype: byte, halen: byte, addr: seq<byte>)
  {
    ghost predicate Valid() { |addr| == SLL_ADDRLEN }
  }

  /** The cooked header (struct sll_header), as the host reads its fields. */
  datatype Sll = Sll(pkttype: word, hatype: word, halen: word, addr: seq<byte>, protocol: word)
  {
    ghost predicate Valid() { |addr| == SLL_ADDRLEN }
  }

  /** A frame as the socket delivers it, and whatever was where its cooked header is built. */
  datatype Packet = Packet(from: Sockaddr, sec: int, usec: int, data: seq<byte>, litter: Sll)
  {
    ghost predicate Valid() { from.Valid() && litter.Valid() && |data| < 0x8000_0000 }
  }

  function SllOf(o: Order, from: Sockaddr, litter: Sll): (h: Sll)
    requires from.Valid() && litter.Valid()
    ensures h.Valid()
    ensures h.pkttype == PACKET_HOST <==> from.pkttype == PACKET_HOST
    ensures forall k :: 0 <= k < 8 ==> h.addr[k] == if k < from.halen as int then from.addr[k] else litter.addr[k]
  {
    var n := if from.halen as int > SLL_ADDRLEN then SLL_ADDRLEN else from.halen as int;
    Sll(if from.pkttype <= PACKET_OUTGOING then Htons(o, from.pkttype) else 0xffff,
        Htons(o, from.hatype), Htons(o, from.halen), from.addr[..n] + litter.addr[n..], from.protocol)
  }

  function SllOctets(o: Order, h: Sll): (s: seq<byte>)
    requires h.Valid()
    ensures |s| == SLL_SIZE && Load16(o, s[0..2]) == h.pkttype && Load16(o, s[14..16]) == h.protocol
  {
    var s := Raw16(o, h.pkttype) + Raw16(o, h.hatype) + Raw16(o, h.halen) + h.addr + Raw16(o, h.protocol);
    assert s[0..2] == Raw16(o, h.pkttype) && s[14..16] == Raw16(o, h.protocol);
    s
  }

  function RecordOctets(o: Order, sec: int, usec: int, inclLen: int, origLen: int): (s: seq<byte>)
    requires 0 <= sec < 0x1_0000_0000 && 0 <= usec < 0x1_0000_0000
    requires 0 <= inclLen < 0x1_0000_0000 && 0 <= origLen < 0x1_0000_0000
    ensures |s| == RECORD_SIZE
    ensures Load32(o, s[0..4]) == sec && Load32(o, s[4..8]) == usec
    ensures Load32(o, s[8..12]) == inclLen && Load32(o, s[12..16]) == origLen
  {
    var s := Raw32(o, sec) + Raw32(o, usec) + Raw32(o, inclLen) + Raw32(o, origLen);
    assert s[0..4] == Raw32(o, sec) && s[4..8] == Raw32(o, usec);
    assert s[8..12] == Raw32(o, inclLen) && s[12..16] == Raw32(o, origLen);
    s
  }

  function Unsigned32(n: int): (r: nat)
    ensures r < 0x1_0000_0000
  {
    n % 0x1_0000_0000
  }

  /** A frame in the file. */
  function Octets(o: Order, p: Packet): (s: seq<byte>)
    requires p.Valid()
    ensures |s| == RECORD_SIZE + SLL_SIZE + |p.data| == 32 + |p.data|
  {
    var size := |p.data| + SLL_SIZE;
    RecordOctets(o, Unsigned32(p.sec), Unsigned32(p.usec), size, size) +
    (SllOctets(o, SllOf(o, p.from, p.litter)) + p.data)
  }

  ghost predicate AllValid(packets: seq<Packet>) {
    forall k :: 0 <= k < |packets| ==> packets[k].Valid()
  }

  function AllOctets(o: Order, packets: seq<Packet>): seq<byte>
    requires AllValid(packets)
  {
    if packets == [] then [] else Octets(o, packets[0]) + AllOctets(o, packets[1..])
  }

  // ---- Reading them back ----

  datatype Reading =
    | Failed
    | Got(len: int, outgoing: bool, protocol: nat, sec: nat, usec: nat, data: seq<byte>)

  /** The length of the frame in front of `s`, as a C `int`; nothing keeps it from being negative. */
  function Length(o: Order, s: seq<byte>): int
    requires |s| >= RECORD_SIZE
  {
    Signed32(Unsigned32(Load32(o, s[12..16]) - SLL_SIZE))
  }

  /** A count of octets that cannot be read makes `read` answer -1, and that is compared to the count. */
  function ReadOne(o: Order, s: seq<byte>): (r: Reading)
    ensures r.Got? ==> RECORD_SIZE + SLL_SIZE + |r.data| <= |s|
  {
    if |s| < RECORD_SIZE + SLL_SIZE then Failed
    else
      var len := Length(o, s);
      if -1 <= len <= |s| - (RECORD_SIZE + SLL_SIZE) then
        Got(len, Load16(o, s[16..18]) != PACKET_HOST, Load16(o, s[30..32]), Load32(o, s[0..4]), Load32(o, s[4..8]),
            if len < 0 then [] else s[32..32 + len])
      else Failed
  }

  /** What is read, place by place. */
  lemma ReadInPlaces(o: Order, s: seq<byte>)
    ensures var r := ReadOne(o, s);
            r.Got? ==>
              && |s| >= 32 && r.sec == Load32(o, s[0..4]) && r.usec == Load32(o, s[4..8])
              && (r.outgoing <==> s[16..18] != [0, 0]) && r.protocol == Load16(o, s[30..32])
              && (r.len + 16) % 0x1_0000_0000 == Load32(o, s[12..16])
              && r.data <= s[32..] && (r.len == |r.data| || r.len == -1)
  {
    hide Load32;
    if |s| >= 32 {
      assert s[16..18] == [s[16], s[17]];
      MostSignificantFirst(s[16], s[17], s[17], s[16]);
    }
  }

  /** A frame without its octets is taken for read if and only if its record gives a length of 15: it is -1 then. */
  lemma WildLengthIff(o: Order, s: seq<byte>)
    ensures ReadOne(o, s).Got? && ReadOne(o, s).len != |ReadOne(o, s).data| <==>
            |s| >= RECORD_SIZE + SLL_SIZE && Load32(o, s[12..16]) == 15
  {
    hide Load32, Load16;
    if |s| >= RECORD_SIZE {
      SignedMinusOne(Load32(o, s[12..16]));
    }
  }

  lemma SignedMinusOne(n: nat)
    requires n < 0x1_0000_0000
    ensures Signed32(Unsigned32(n - SLL_SIZE)) == -1 <==> n == 15
  {
  }

  /** Such a record, and what is read of it. */
  lemma WildLength(o: Order, litter: Sll)
    requires litter.Valid()
    ensures var s := RecordOctets(o, 0, 0, 15, 15) + SllOctets(o, litter);
            ReadOne(o, s).Got? && ReadOne(o, s).len == -1 && ReadOne(o, s).data == []
  {
    var rec, sll := RecordOctets(o, 0, 0, 15, 15), SllOctets(o, litter);
    hide RecordOctets, SllOctets, Load32, Load16;
    SliceOfLeft(rec, sll, 12, 16);
    WildLengthIff(o, rec + sll);
    SignedMinusOne(15);
  }

  /** What reading finds until it fails. */
  function Readings(o: Order, s: seq<byte>): seq<Reading>
    decreases |s|
  {
    var r := ReadOne(o, s);
    if r.Failed? then [] else [r] + Readings(o, s[RECORD_SIZE + SLL_SIZE + |r.data|..])
  }

  /** What reading should find of a frame. */
  function Seen(p: Packet): Reading {
    Got(|p.data|, p.from.pkttype != PACKET_HOST, p.from.protocol, Unsigned32(p.sec), Unsigned32(p.usec), p.data)
  }

  function AllSeen(packets: seq<Packet>): (r: seq<Reading>)
    ensures |r| == |packets|
    ensures forall k :: 0 <= k < |r| ==> r[k] == Seen(packets[k])
  {
    if packets == [] then [] else [Seen(packets[0])] + AllSeen(packets[1..])
  }

  lemma HeadersRead(o: Order, p: Packet, s: seq<byte>, c: nat)
    requires p.Valid() && RECORD_SIZE <= c <= |s| && Octets(o, p) <= s
    ensures Length(o, s[..c]) == |p.data| && Load32(o, s[..c][12..16]) == |p.data| + SLL_SIZE
    ensures Load32(o, s[..c][0..4]) == Unsigned32(p.sec) && Load32(o, s[..c][4..8]) == Unsigned32(p.usec)
  {
    hide Octets, RecordOctets, SllOctets, Load32;
    HeadOf(o, p);
    var h, t := Octets(o, p)[..RECORD_SIZE], s[..c];
    assert t[..RECORD_SIZE] == h by {
      SameFront(Octets(o, p), s, c);
    }
    InFront(t, RECORD_SIZE);
    InFront(h, RECORD_SIZE);
    assert Signed32(|p.data|) == |p.data|;
  }

  lemma SameFront(a: seq<byte>, s: seq<byte>, c: nat)
    requires RECORD_SIZE <= c <= |s| && RECORD_SIZE <= |a| && a <= s
    ensures s[..c][..RECORD_SIZE] == a[..RECORD_SIZE]
  {
  }

  lemma HeadOf(o: Order, p: Packet)
    requires p.Valid()
    ensures var size := |p.data| + SLL_SIZE;
            Octets(o, p)[..RECORD_SIZE] == RecordOctets(o, Unsigned32(p.sec), Unsigned32(p.usec), size, size)
  {
  }

  lemma InFront(t: seq<byte>, n: nat)
    requires RECORD_SIZE <= n <= |t|
    ensures t[..n][0..4] == t[0..4] && t[..n][4..8] == t[4..8] && t[..n][12..16] == t[12..16]
  {
    assert t[..n] == t[0..n];
    SliceOfSlice(t, 0, n, 0, 4);
    SliceOfSlice(t, 0, n, 4, 8);
    SliceOfSlice(t, 0, n, 12, 16);
  }

  /** Both lengths of a record count the cooked header and the frame. */
  lemma LengthsInPlaces(o: Order, p: Packet)
    requires p.Valid()
    ensures Load32(o, Octets(o, p)[8..12]) == Load32(o, Octets(o, p)[12..16]) == |p.data| + 16
  {
    HeadOf(o, p);
    hide Octets, RecordOctets, SllOctets, Load32;
    var t := Octets(o, p);
    assert t[..RECORD_SIZE] == t[0..16];
    SliceOfSlice(t, 0, 16, 8, 12);
    SliceOfSlice(t, 0, 16, 12, 16);
  }

  /** A frame that is all there is read as it was. */
  lemma ReadOneWhole(o: Order, p: Packet, rest: seq<byte>)
    requires p.Valid()
    ensures ReadOne(o, Octets(o, p) + rest) == Seen(p)
    ensures Seen(p) == Got(|p.data|, p.from.pkttype != 0, p.from.protocol, p.sec % 0x1_0000_0000,
                           p.usec % 0x1_0000_0000, p.data)
  {
    hide Octets, RecordOctets, SllOctets, SllOf, Load16, Load32, Length;
    var s := Octets(o, p) + rest;
    assert s[..|s|] == s;
    HeadersRead(o, p, s, |s|);
    TailOf(o, p);
    var t := Octets(o, p);
    SliceOfLeft(t, rest, 16, 18);
    SliceOfLeft(t, rest, 30, 32);
    SliceOfLeft(t, rest, 32, |t|);
  }

  lemma TailOf(o: Order, p: Packet)
    requires p.Valid()
    ensures var s, h := Octets(o, p), SllOf(o, p.from, p.litter);
            Load16(o, s[16..18]) == h.pkttype && Load16(o, s[30..32]) == p.from.protocol && s[32..] == p.data
  {
    hide Load16, Load32, Raw16, RecordOctets, SllOctets;
    var s, t := Octets(o, p), SllOctets(o, SllOf(o, p.from, p.litter));
    var size := |p.data| + SLL_SIZE;
    var h := RecordOctets(o, Unsigned32(p.sec), Unsigned32(p.usec), size, size);
    SliceOfRight(h, t + p.data, 0, 2);
    SliceOfRight(h, t + p.data, 14, 16);
    SliceOfRight(h, t + p.data, 16, |t + p.data|);
    SliceOfLeft(t, p.data, 0, 2);
    SliceOfLeft(t, p.data, 14, 16);
    SliceOfRight(t, p.data, 0, |p.data|);
  }

  /** A frame that is cut short is not read. */
  lemma ReadOneCut(o: Order, p: Packet, c: nat)
    requires p.Valid() && c < |Octets(o, p)|
    ensures ReadOne(o, Octets(o, p)[..c]) == Failed
  {
    if c >= RECORD_SIZE {
      HeadersRead(o, p, Octets(o, p), c);
    }
  }

  /** How many of the frames fit in the first `c` octets of the file. */
  function Whole(o: Order, packets: seq<Packet>, c: nat): (n: nat)
    requires AllValid(packets)
    ensures n <= |packets|
  {
    if packets == [] || c < |Octets(o, packets[0])| then 0
    else 1 + Whole(o, packets[1..], c - |Octets(o, packets[0])|)
  }

  /** The first `n` frames, one by one. */
  lemma FirstOctets(o: Order, packets: seq<Packet>, n: nat)
    requires AllValid(packets) && n <= |packets|
    ensures AllOctets(o, packets[..n]) ==
            if n == 0 then [] else Octets(o, packets[0]) + AllOctets(o, packets[1..][..n - 1])
  {
    if n > 0 {
      assert packets[..n][1..] == packets[1..][..n - 1];
    }
  }

  lemma {:induction false} WholeIsLargest(o: Order, packets: seq<Packet>, c: nat)
    requires AllValid(packets)
    ensures var n := Whole(o, packets, c);
            && |AllOctets(o, packets[..n])| <= c
            && (n < |packets| ==> c < |AllOctets(o, packets[..n + 1])|)
  {
    hide AllOctets, Octets;
    var n := Whole(o, packets, c);
    FirstOctets(o, packets, n);
    if n < |packets| {
      FirstOctets(o, packets, n + 1);
    }
    if n > 0 {
      WholeIsLargest(o, packets[1..], c - |Octets(o, packets[0])|);
    }
  }

  lemma AllOctetsStep(o: Order, packets: seq<Packet>)
    requires AllValid(packets)
    ensures AllOctets(o, packets) ==
            if packets == [] then [] else Octets(o, packets[0]) + AllOctets(o, packets[1..])
  {
  }

  lemma AllSeenStep(packets: seq<Packet>, n: nat)
    requires 0 < n <= |packets|
    ensures AllSeen(packets)[..n] == [Seen(packets[0])] + AllSeen(packets[1..])[..n - 1]
  {
  }

  lemma ReadingsStep(o: Order, s: seq<byte>)
    ensures Readings(o, s) ==
            var r := ReadOne(o, s);
            if r.Failed? then [] else [r] + Readings(o, s[RECORD_SIZE + SLL_SIZE + |r.data|..])
  {
  }

  lemma NothingIsRead(o: Order)
    ensures ReadOne(o, []) == Failed && AllSeen([]) == []
  {
  }

  /** A file that is cut anywhere is read as the frames that are all there, and then fails. */
  lemma {:induction false} CutFileIsRead(o: Order, packets: seq<Packet>, c: nat)
    requires AllValid(packets) && c <= |AllOctets(o, packets)|
    ensures Readings(o, AllOctets(o, packets)[..c]) == AllSeen(packets)[..Whole(o, packets, c)]
  {
    hide AllOctets, Octets, AllSeen, Readings, ReadOne;
    AllOctetsStep(o, packets);
    ReadingsStep(o, AllOctets(o, packets)[..c]);
    if packets != [] {
      var first, rest := Octets(o, packets[0]), AllOctets(o, packets[1..]);
      TakeConcat(first, rest, c);
      if c < |first| {
        ReadOneCut(o, packets[0], c);
      } else {
        var d := c - |first|;
        CutFileIsRead(o, packets[1..], d);
        ReadOneWhole(o, packets[0], rest[..d]);
        assert (first + rest[..d])[|first|..] == rest[..d];
        var s := AllOctets(o, packets)[..c];
        assert s == first + rest[..d];
        assert ReadOne(o, s) == Seen(packets[0]);
        assert |first| == RECORD_SIZE + SLL_SIZE + |packets[0].data|;
        assert Readings(o, s) == [Seen(packets[0])] + Readings(o, rest[..d]);
        assert Whole(o, packets, c) == 1 + Whole(o, packets[1..], d);
        AllSeenStep(packets, Whole(o, packets, c));
      }
    } else {
      NothingIsRead(o);
      assert AllOctets(o, packets)[..c] == [];
    }
  }

  lemma FileIsRead(o: Order, packets: seq<Packet>)
    requires AllValid(packets)
    ensures Readings(o, AllOctets(o, packets)) == AllSeen(packets)
  {
    var s := AllOctets(o, packets);
    assert s[..|s|] == s;
    CutFileIsRead(o, packets, |s|);
    WholeOfAll(o, packets);
  }

  lemma {:induction false} WholeOfAll(o: Order, packets: seq<Packet>)
    requires AllValid(packets)
    ensures Whole(o, packets, |AllOctets(o, packets)|) == |packets|
  {
    hide Octets;
    if packets != [] {
      WholeOfAll(o, packets[1..]);
    }
  }

  /** The cooked header is in network order, whatever the host's order is. */
  lemma CookedHeader(o: Order, from: Sockaddr, litter: Sll, protocol: word)
    requires from.Valid() && litter.Valid() && from.protocol == Htons(o, protocol)
    ensures var h := SllOf(o, from, litter);
            SllOctets(o, h) ==
            Be16(if from.pkttype <= 4 then from.pkttype else 0xffff) + Be16(from.hatype) +
            Be16(from.halen) + h.addr + Be16(protocol)
  {
    hide Raw16, Htons;
    assert Raw16(o, 0xffff) == Be16(0xffff) by {
      Same(o);
    }
  }

  lemma Same(o: Order)
    ensures Raw16(o, 0xffff) == Be16(0xffff)
  {
  }

  // ---- Capturing and replaying ----

  /** What a live capture writes: frames of the IrDA protocol and the wanted interface that are not empty. */
  predicate Wanted(o: Order, ifindex: int, p: Packet) {
    p.from.protocol == Htons(o, ETH_P_IRDA) && (ifindex == 0 || p.from.ifindex == ifindex) && p.data != []
  }

  /** The protocol field of an IrDA frame lies in memory as 0x00, 0x17 on every host. */
  lemma WantedIff(o: Order, ifindex: int, p: Packet)
    ensures Wanted(o, ifindex, p) <==>
            && Raw16(o, p.from.protocol) == [0x00, 0x17]
            && (ifindex == 0 || p.from.ifindex == ifindex)
            && |p.data| > 0
  {
    MostSignificantFirst(0x00, 0x17, 0, 0);
    hide Be16, FromBe16;
    assert p.from.protocol == Load16(o, Raw16(o, p.from.protocol));
    assert Htons(o, ETH_P_IRDA) == Load16(o, Raw16(o, Htons(o, ETH_P_IRDA)));
  }

  lemma {:induction false} CapturedAppend(o: Order, ifindex: int, a: seq<Packet>, b: seq<Packet>)
    ensures Captured(o, ifindex, a + b) == Captured(o, ifindex, a) + Captured(o, ifindex, b)
    decreases |a|
  {
    hide Wanted;
    if a == [] {
      assert a + b == b;
    } else {
      assert (a + b)[0] == a[0] && (a + b)[1..] == a[1..] + b;
      CapturedAppend(o, ifindex, a[1..], b);
      var first := if Wanted(o, ifindex, a[0]) then [a[0]] else [];
      Associative(first, Captured(o, ifindex, a[1..]), Captured(o, ifindex, b));
    }
  }

  /** A packet is captured, in its place, exactly when it meets these conditions. */
  lemma CapturedInPlace(o: Order, ifindex: int, a: seq<Packet>, p: Packet, b: seq<Packet>)
    ensures var wanted := Raw16(o, p.from.protocol) == [0x00, 0x17]
                          && (ifindex == 0 || p.from.ifindex == ifindex) && |p.data| > 0;
            Captured(o, ifindex, a + [p] + b) ==
            Captured(o, ifindex, a) + (if wanted then [p] else []) + Captured(o, ifindex, b)
  {
    WantedIff(o, ifindex, p);
    CapturedAppend(o, ifindex, a + [p], b);
    CapturedAppend(o, ifindex, a, [p]);
    assert [p][1..] == [];
  }

  /** Nothing of another interface, of another protocol, or empty, is captured. */
  lemma CapturedIs(o: Order, ifindex: int, packets: seq<Packet>)
    requires AllValid(packets)
    ensures forall k :: 0 <= k < |Captured(o, ifindex, packets)| ==>
              && (ifindex != 0 ==> Captured(o, ifindex, packets)[k].from.ifindex == ifindex)
              && Raw16(o, Captured(o, ifindex, packets)[k].from.protocol) == [0x00, 0x17]
              && Captured(o, ifindex, packets)[k].data != []
  {
    CapturedAreWanted(o, ifindex, packets);
    var kept := Captured(o, ifindex, packets);
    hide Wanted, Raw16, Captured;
    forall k | 0 <= k < |kept|
      ensures (ifindex != 0 ==> kept[k].from.ifindex == ifindex) && Raw16(o, kept[k].from.protocol) == [0x00, 0x17]
      ensures kept[k].data != []
    {
      assert Wanted(o, ifindex, kept[k]);
      WantedIff(o, ifindex, kept[k]);
    }
  }

  function ShownOne(r: Reading): seq<Reading> {
    if r.Got? && r.protocol == ETH_P_IRDA && r.len != 0 then [r] else []
  }

  lemma {:induction false} ShownAppend(a: seq<Reading>, b: seq<Reading>)
    ensures Shown(a + b) == Shown(a) + Shown(b)
    decreases |a|
  {
    hide ShownOne;
    if a == [] {
      assert a + b == b;
    } else {
      assert (a + b)[0] == a[0] && (a + b)[1..] == a[1..] + b;
      ShownAppend(a[1..], b);
      Associative(ShownOne(a[0]), Shown(a[1..]), Shown(b));
    }
  }

  /** A frame is shown, in its place, exactly when the host reads 0x0017 for its protocol and it is not empty. */
  lemma ShownInPlace(a: seq<Reading>, r: Reading, b: seq<Reading>)
    ensures Shown(a + [r] + b) ==
            Shown(a) + (if r.Got? && r.protocol == 0x0017 && r.len != 0 then [r] else []) + Shown(b)
  {
    ShownAppend(a + [r], b);
    ShownAppend(a, [r]);
    assert [r][1..] == [];
  }

  predicate AllWanted(o: Order, ifindex: int, packets: seq<Packet>) {
    forall k :: 0 <= k < |packets| ==> Wanted(o, ifindex, packets[k])
  }

  function Captured(o: Order, ifindex: int, packets: seq<Packet>): seq<Packet> {
    if packets == [] then []
    else (if Wanted(o, ifindex, packets[0]) then [packets[0]] else []) + Captured(o, ifindex, packets[1..])
  }

  /** What a replay shows: the protocol is compared without turning it into host order. */
  function Shown(readings: seq<Reading>): seq<Reading> {
    if readings == [] then [] else ShownOne(readings[0]) + Shown(readings[1..])
  }

  lemma {:induction false} CapturedAreWanted(o: Order, ifindex: int, packets: seq<Packet>)
    requires AllValid(packets)
    ensures AllValid(Captured(o, ifindex, packets))
    ensures AllWanted(o, ifindex, Captured(o, ifindex, packets))
  {
    if packets != [] {
      CapturedAreWanted(o, ifindex, packets[1..]);
    }
  }

  lemma {:induction false} ShownOfSeen(o: Order, ifindex: int, kept: seq<Packet>)
    requires AllWanted(o, ifindex, kept)
    ensures Shown(AllSeen(kept)) == if o.BigEndian? then AllSeen(kept) else []
  {
    if kept != [] {
      ShownOfSeen(o, ifindex, kept[1..]);
      assert AllSeen(kept)[1..] == AllSeen(kept[1..]);
      assert Wanted(o, ifindex, kept[0]);
    }
  }

  /** A capture can be replayed on a big-endian host, but on a little-endian host nothing of it is shown. */
  lemma ReplayShows(o: Order, ifindex: int, packets: seq<Packet>)
    requires AllValid(packets)
    ensures var kept := Captured(o, ifindex, packets);
            && AllValid(kept)
            && Shown(Readings(o, AllOctets(o, kept))) == (if o.BigEndian? then AllSeen(kept) else [])
            && (Shown(Readings(o, AllOctets(o, kept))) == AllSeen(kept) <==> o.BigEndian? || kept == [])
  {
    CapturedAreWanted(o, ifindex, packets);
    FileIsRead(o, Captured(o, ifindex, packets));
    ShownOfSeen(o, ifindex, Captured(o, ifindex, packets));
  }

  // ---- The code ----

  class File {
    var octets: seq<byte>
    var pos: nat

    ghost predicate Valid()
      reads this
    {
      pos <= |octets|
    }

    /** What has not been read. */
    ghost function Rest(): (s: seq<byte>)
      reads this
      requires Valid()
    {
      octets[pos..]
    }

    constructor (s: seq<byte>)
      ensures Valid() && Rest() == octets == s
    {
      octets, pos := s, 0;
    }

    method Write(s: seq<byte>)
      requires Valid()
      modifies this`octets
      ensures Valid() && octets == old(octets) + s
    {
      octets := octets + s;
    }

    /** Reads up to `n` octets. A negative count is an error. */
    method Read(n: int) returns (s: seq<byte>, ret: int)
      requires Valid()
      modifies this`pos
      ensures Valid() && pos == old(pos) + |s|
      ensures s == if n < 0 then [] else if n <= |old(Rest())| then old(Rest())[..n] else old(Rest())
      ensures ret == if n < 0 then -1 else |s|
    {
      if n < 0 {
        return [], -1;
      }
      ghost var rest := Rest();
      var to := if pos + n <= |octets| then pos + n else |octets|;
      s, ret := octets[pos..to], to - pos;
      if n <= |rest| {
        assert to == pos + n && rest[..n] == octets[pos..to];
      }
      pos := to;
    }
  }

  method WriteInit(o: Order, file: File)
    requires file.Valid()
    modifies file`octets
    ensures file.Valid() && file.octets == old(file.octets) + HeaderOctets(o)
  {
    file.Write(HeaderOctets(o));
  }

  /** Fills in the cooked header field by field. */
  method FillSll(o: Order, from: Sockaddr, litter: Sll) returns (hdr: Sll)
    requires from.Valid() && litter.Valid()
    ensures hdr == SllOf(o, from, litter)
  {
    hdr := litter;
    match from.pkttype {
      case 0 => hdr := hdr.(pkttype := Htons(o, 0));
      case 1 => hdr := hdr.(pkttype := Htons(o, 1));
      case 2 => hdr := hdr.(pkttype := Htons(o, 2));
      case 3 => hdr := hdr.(pkttype := Htons(o, 3));
      case 4 => hdr := hdr.(pkttype := Htons(o, 4));
      case _ => hdr := hdr.(pkttype := 0xffff);
    }
    hdr := hdr.(hatype := Htons(o, from.hatype));
    hdr := hdr.(halen := Htons(o, from.halen));
    var n := if from.halen as int > SLL_ADDRLEN then SLL_ADDRLEN else from.halen as int;
    hdr := hdr.(addr := from.addr[..n] + hdr.addr[n..]);
    hdr := hdr.(protocol := from.protocol);
  }

  /** Writes the frame that is at the head of the buffer. */
  method Dump(o: Order, file: File, buf: NetBuf, p: Packet)
    requires file.Valid() && p.Valid() && |p.data| <= buf.mem.Length && buf.mem[..|p.data|] == p.data
    modifies file`octets
    ensures file.Valid() && file.octets == old(file.octets) + Octets(o, p)
  {
    var len := |p.data|;
    var origLen := len + SLL_SIZE;
    var hdr := FillSll(o, p.from, p.litter);
    hide RecordOctets, SllOctets, SllOf;
    file.Write(RecordOctets(o, Unsigned32(p.sec), Unsigned32(p.usec), origLen, origLen));
    file.Write(SllOctets(o, hdr));
    file.Write(buf.mem[..len]);
    ghost var rec, sll := RecordOctets(o, Unsigned32(p.sec), Unsigned32(p.usec), origLen, origLen), SllOctets(o, hdr);
    Associative(old(file.octets), rec, sll + p.data);
    Associative(old(file.octets) + rec, sll, p.data);
  }

  method Check(o: Order, file: File) returns (ok: bool)
    requires file.Valid()
    modifies file`pos
    ensures file.Valid() && ok == Accepts(o, old(file.Rest()))
    ensures ok ==> file.Rest() == old(file.Rest())[HEADER_SIZE..]
  {
    var h, n := file.Read(HEADER_SIZE);
    hide Load16, Load32;
    if n != HEADER_SIZE {
      return false;
    }
    ghost var s := old(file.Rest());
    assert h[0..4] == s[0..4] && h[4..6] == s[4..6] && h[6..8] == s[6..8] && h[20..24] == s[20..24];
    return Load32(o, h[0..4]) == MAGIC && Load16(o, h[4..6]) == VERSION_MAJOR
        && Load16(o, h[6..8]) == VERSION_MINOR && Load32(o, h[20..24]) == DLT_LINUX_IRDA;
  }

  /** How much of the buffer reading the frame in front of `s` fills. */
  function Room(o: Order, s: seq<byte>): nat {
    if |s| < RECORD_SIZE + SLL_SIZE || Length(o, s) < 0 then 0
    else if Length(o, s) <= |s| - (RECORD_SIZE + SLL_SIZE) then Length(o, s)
    else |s| - (RECORD_SIZE + SLL_SIZE)
  }

  method GetHeaders(file: File) returns (ok: bool, rec: seq<byte>, sll: seq<byte>)
    requires file.Valid()
    modifies file`pos
    ensures file.Valid() && ok == (|old(file.Rest())| >= RECORD_SIZE + SLL_SIZE)
    ensures ok ==>
              |rec| == RECORD_SIZE && |sll| == SLL_SIZE && old(file.Rest()) == rec + (sll + file.Rest())
  {
    var n;
    rec, n := file.Read(RECORD_SIZE);
    if n != RECORD_SIZE {
      return false, [], [];
    }
    sll, n := file.Read(SLL_SIZE);
    ok := n == SLL_SIZE;
  }

  /**
   Reads a frame to the head of the buffer, which is not compared to its length: `fits` tells whether
   the octets that are read stay inside.
   */
  method Get(o: Order, file: File, buf: NetBuf) returns (r: Reading, fits: bool)
    requires file.Valid()
    modifies file`pos, buf.mem
    ensures file.Valid() && fits == (Room(o, old(file.Rest())) <= buf.mem.Length)
    ensures fits ==> r == ReadOne(o, old(file.Rest()))
    ensures fits && r.Got? ==>
              && file.Rest() == old(file.Rest())[RECORD_SIZE + SLL_SIZE + |r.data|..]
              && |r.data| <= buf.mem.Length && buf.mem[..|r.data|] == r.data
  {
    hide Load16, Load32, Length, ReadOne, Room;
    TooShort(o, file.Rest());
    var ok, rec, sll := GetHeaders(file);
    if !ok {
      return Failed, true;
    }
    ghost var rest := file.Rest();
    Parts(o, rec, sll, rest);
    var len := Length(o, rec);
    var data, n := file.Read(len);
    fits := |data| <= buf.mem.Length;
    r := Failed;
    if fits {
      forall i | 0 <= i < |data| {
        buf.mem[i] := data[i];
      }
      assert buf.mem[..|data|] == data;
      if n == len {
        r := Got(len, Load16(o, sll[0..2]) != PACKET_HOST, Load16(o, sll[14..16]), Load32(o, rec[0..4]),
                 Load32(o, rec[4..8]), buf.mem[..|data|]);
      }
    }
  }

  lemma TooShort(o: Order, s: seq<byte>)
    ensures |s| < RECORD_SIZE + SLL_SIZE ==> ReadOne(o, s) == Failed && Room(o, s) == 0
  {
  }

  /** A frame in the file, by the parts in which it is read. */
  lemma Parts(o: Order, rec: seq<byte>, sll: seq<byte>, rest: seq<byte>)
    requires |rec| == RECORD_SIZE && |sll| == SLL_SIZE
    ensures var s, len := rec + (sll + rest), Length(o, rec);
            && Room(o, s) == (if len < 0 then 0 else if len <= |rest| then len else |rest|)
            && ReadOne(o, s) ==
               if -1 <= len <= |rest| then
                 Got(len, Load16(o, sll[0..2]) != PACKET_HOST, Load16(o, sll[14..16]), Load32(o, rec[0..4]),
                     Load32(o, rec[4..8]), if len < 0 then [] else rest[..len])
               else Failed
  {
    hide Load16, Load32;
    var s := rec + (sll + rest);
    var tail := sll + rest;
    SliceOfLeft(rec, tail, 12, 16);
    SliceOfLeft(rec, tail, 0, 4);
    SliceOfLeft(rec, tail, 4, 8);
    SliceOfRight(rec, tail, 0, 2);
    SliceOfRight(rec, tail, 14, 16);
    SliceOfLeft(sll, rest, 0, 2);
    SliceOfLeft(sll, rest, 14, 16);
    var len := Length(o, rec);
    if 0 <= len <= |rest| {
      SliceOfRight(rec, tail, 16, 16 + len);
      SliceOfRight(sll, rest, 0, len);
    }
  }

  // ---- The loop ----

  /** The packets with data that a buffer of the loop can hold. */
  ghost predicate Small(packets: seq<Packet>) {
    AllValid(packets) && forall k :: 0 <= k < |packets| ==> |packets[k].data| <= MAX_FRAME_SIZE
  }

  /** All frames in front of `s`, and what is read of one that is cut, fit into a buffer. */
  predicate Fits(o: Order, s: seq<byte>, size: nat)
    decreases |s|
  {
    var r := ReadOne(o, s);
    && Room(o, s) <= size
    && (r.Got? ==> Fits(o, s[RECORD_SIZE + SLL_SIZE + |r.data|..], size))
  }

  lemma FitsStep(o: Order, s: seq<byte>, size: nat)
    ensures var r := ReadOne(o, s);
            Fits(o, s, size) <==>
            && Room(o, s) <= size
            && (r.Got? ==> Fits(o, s[RECORD_SIZE + SLL_SIZE + |r.data|..], size))
  {
  }

  /** A file that was captured fits, even when it is cut. */
  lemma {:induction false} CapturedFits(o: Order, packets: seq<Packet>, c: nat)
    requires Small(packets) && c <= |AllOctets(o, packets)|
    ensures Fits(o, AllOctets(o, packets)[..c], MAX_FRAME_SIZE) && MAX_FRAME_SIZE == 2050
  {
    hide AllOctets, Octets, ReadOne, Length;
    AllOctetsStep(o, packets);
    if packets == [] {
      NothingIsRead(o);
      assert AllOctets(o, packets)[..c] == [];
    } else {
      var p, first, rest := packets[0], Octets(o, packets[0]), AllOctets(o, packets[1..]);
      var s := (first + rest)[..c];
      TakeConcat(first, rest, c);
      if c >= RECORD_SIZE {
        HeadersRead(o, p, first + rest, c);
      }
      if c < |first| {
        ReadOneCut(o, p, c);
      } else {
        ReadOneWhole(o, p, rest[..c - |first|]);
        assert s == first + rest[..c - |first|];
        assert s[|first|..] == rest[..c - |first|];
        CapturedFits(o, packets[1..], c - |first|);
      }
    }
  }

  /** One packet from the socket. */
  method LiveStep(o: Order, ifindex: int, p: Packet, file: File, buf: NetBuf)
    requires file.Valid() && buf.Valid() && buf.truesize >= MAX_FRAME_SIZE
    requires p.Valid() && |p.data| <= MAX_FRAME_SIZE
    modifies file`octets, buf, buf.mem
    ensures file.Valid() && buf.Valid() && buf.mem == old(buf.mem)
    ensures file.octets == old(file.octets) + if Wanted(o, ifindex, p) then Octets(o, p) else []
    ensures Raw16(o, p.from.protocol) == [0x00, 0x17] && (ifindex == 0 || p.from.ifindex == ifindex) && |p.data| > 0 ==>
              file.octets == old(file.octets) + Octets(o, p) && buf.Contents() == p.data
    ensures Raw16(o, p.from.protocol) != [0x00, 0x17] ==> file.octets == old(file.octets)
    ensures ifindex != 0 && p.from.ifindex != ifindex ==> file.octets == old(file.octets)
    ensures |p.data| == 0 ==> file.octets == old(file.octets)
  {
    WantedIff(o, ifindex, p);
    hide Octets, Htons, Raw16;
    buf.Recycle();
    forall i | 0 <= i < |p.data| {
      buf.mem[buf.data + i] := p.data[i];
    }
    assert buf.mem[..|p.data|] == p.data;
    if p.from.protocol != Htons(o, ETH_P_IRDA) {
      return;
    }
    if ifindex != 0 && p.from.ifindex != ifindex {
      return;
    }
    if |p.data| == 0 {
      return;
    }
    var _ := buf.Put(|p.data|);
    Dump(o, file, buf, p);
  }

  method Live(o: Order, ifindex: int, packets: seq<Packet>, file: File, buf: NetBuf)
    requires file.Valid() && buf.Valid() && buf.truesize >= MAX_FRAME_SIZE && Small(packets)
    modifies file`octets, buf, buf.mem
    ensures file.Valid() && AllValid(Captured(o, ifindex, packets))
    ensures file.octets == old(file.octets) + AllOctets(o, Captured(o, ifindex, packets))
  {
    CapturedAreWanted(o, ifindex, packets);
    hide Octets, Wanted, Raw16;
    for i := 0 to |packets|
      invariant file.Valid() && buf.Valid() && buf.mem == old(buf.mem)
      invariant AllValid(Captured(o, ifindex, packets[i..]))
      invariant file.octets + AllOctets(o, Captured(o, ifindex, packets[i..])) ==
                old(file.octets) + AllOctets(o, Captured(o, ifindex, packets))
    {
      ghost var was := file.octets;
      LiveStep(o, ifindex, packets[i], file, buf);
      CapturedStep(o, ifindex, packets, i, was);
    }
  }

  lemma CapturedStep(o: Order, ifindex: int, packets: seq<Packet>, i: nat, was: seq<byte>)
    requires AllValid(packets) && i < |packets|
    ensures var now, later := Captured(o, ifindex, packets[i..]), Captured(o, ifindex, packets[i + 1..]);
            && AllValid(now) && AllValid(later)
            && was + AllOctets(o, now) ==
               was + (if Wanted(o, ifindex, packets[i]) then Octets(o, packets[i]) else []) + AllOctets(o, later)
  {
    hide Wanted, Octets, AllOctets, Captured;
    CapturedAreWanted(o, ifindex, packets[i..]);
    CapturedAreWanted(o, ifindex, packets[i + 1..]);
    CapturedTail(o, ifindex, packets, i);
    var now, later := Captured(o, ifindex, packets[i..]), Captured(o, ifindex, packets[i + 1..]);
    if Wanted(o, ifindex, packets[i]) {
      AllOctetsStep(o, now);
      assert now[1..] == later;
      Associative(was, Octets(o, packets[i]), AllOctets(o, later));
    } else {
      assert now == later && was + [] == was;
    }
  }

  lemma CapturedTail(o: Order, ifindex: int, packets: seq<Packet>, i: nat)
    requires i < |packets|
    ensures Captured(o, ifindex, packets[i..]) ==
            (if Wanted(o, ifindex, packets[i]) then [packets[i]] else []) + Captured(o, ifindex, packets[i + 1..])
  {
    assert packets[i..][1..] == packets[i + 1..];
  }

  /**
   One frame from the file; one that is to be shown ends up in the buffer. A frame of length -1 is
   shown as well, without any octets.
   */
  method ReplayStep(o: Order, file: File, buf: NetBuf) returns (r: Reading, show: bool, fits: bool)
    requires file.Valid() && buf.Valid()
    modifies file`pos, buf, buf.mem
    ensures file.Valid() && buf.Valid() && buf.mem == old(buf.mem)
    ensures fits == (Room(o, old(file.Rest())) <= buf.mem.Length)
    ensures fits ==> r == ReadOne(o, old(file.Rest()))
    ensures fits && r.Got? ==> file.Rest() == old(file.Rest())[RECORD_SIZE + SLL_SIZE + |r.data|..]
    ensures show <==> fits && r.Got? && r.protocol == 0x0017 && r.len != 0
    ensures show ==> buf.Contents() == r.data
  {
    hide ReadOne, Room;
    buf.Recycle();
    LengthOfData(o, file.Rest());
    r, fits := Get(o, file, buf);
    show := fits && r.Got? && r.protocol == ETH_P_IRDA && r.len != 0;
    if show && r.len > 0 {
      var _ := buf.Put(r.len);
    }
  }

  lemma LengthOfData(o: Order, s: seq<byte>)
    ensures var r := ReadOne(o, s);
            r.Got? ==> if r.len < 0 then r.data == [] else r.len == |r.data| == Room(o, s)
  {
  }

  /** Shows frames until reading fails, or until one does not fit into the buffer. */
  method Replay(o: Order, file: File, buf: NetBuf) returns (frames: seq<Reading>, fits: bool)
    requires file.Valid() && buf.Valid()
    modifies file`pos, buf, buf.mem
    ensures fits == Fits(o, old(file.Rest()), old(buf.mem.Length))
    ensures frames <= Shown(Readings(o, old(file.Rest())))
    ensures fits ==> frames == Shown(Readings(o, old(file.Rest())))
  {
    hide ReadOne, Fits, Readings, Shown, Room;
    frames, fits := [], true;
    ghost var first, all, size := file.Rest(), Shown(Readings(o, file.Rest())), buf.mem.Length;
    while true
      invariant file.Valid() && buf.Valid() && buf.mem == old(buf.mem) && fits
      invariant Fits(o, first, size) <==> Fits(o, file.Rest(), size)
      invariant frames + Shown(Readings(o, file.Rest())) == all
      decreases |file.Rest()|
    {
      ghost var s, was := file.Rest(), frames;
      var r, show;
      r, show, fits := ReplayStep(o, file, buf);
      FitsStep(o, s, size);
      if !fits {
        break;
      }
      ShownStep(o, s, was);
      if r.Failed? {
        break;
      }
      if show {
        frames := frames + [r.(data := buf.mem[buf.data..buf.tail])];
      }
    }
  }

  /** The file that a capture leaves. */
  function FileOf(o: Order, ifindex: int, packets: seq<Packet>): seq<byte>
    requires AllValid(Captured(o, ifindex, packets))
  {
    HeaderOctets(o) + AllOctets(o, Captured(o, ifindex, packets))
  }

  /**
   A capture that is cut anywhere behind its header is accepted exactly by hosts with the byte order
   of its writer. They have room for its frames, and show every captured frame that is all there if
   they are big-endian, and nothing if they are not.
   */
  lemma CutCaptureShows(writer: Order, reader: Order, ifindex: int, packets: seq<Packet>, c: nat)
    requires Small(packets) && AllValid(Captured(writer, ifindex, packets))
    requires HEADER_SIZE <= c <= |FileOf(writer, ifindex, packets)|
    ensures var s := FileOf(writer, ifindex, packets)[..c];
            && (Accepts(reader, s) <==> reader == writer)
            && (reader == writer ==>
                  && Fits(reader, s[HEADER_SIZE..], MAX_FRAME_SIZE)
                  && Shown(Readings(reader, s[HEADER_SIZE..])) == WholeSeen(writer, ifindex, packets, c - HEADER_SIZE))
  {
    hide HeaderOctets, AllOctets, Accepts, Fits, Readings, Shown, Captured, WholeSeen, Small;
    var header, frames := HeaderOctets(writer), AllOctets(writer, Captured(writer, ifindex, packets));
    CutBehind(header, frames, c);
    OnlyItsOwn(writer, reader, frames[..c - HEADER_SIZE]);
    CutFramesShow(writer, ifindex, packets, c - HEADER_SIZE);
  }

  /** What is shown of `c` octets of captured frames. */
  function WholeSeen(o: Order, ifindex: int, packets: seq<Packet>, c: nat): seq<Reading>
    requires AllValid(Captured(o, ifindex, packets))
  {
    var kept := Captured(o, ifindex, packets);
    if o.BigEndian? then AllSeen(kept)[..Whole(o, kept, c)] else []
  }

  lemma CutBehind(header: seq<byte>, frames: seq<byte>, c: nat)
    requires |header| <= c <= |header| + |frames|
    ensures var s := (header + frames)[..c];
            s == header + frames[..c - |header|] && s[|header|..] == frames[..c - |header|]
  {
  }

  lemma CutFramesShow(o: Order, ifindex: int, packets: seq<Packet>, c: nat)
    requires Small(packets) && AllValid(Captured(o, ifindex, packets))
    requires c <= |AllOctets(o, Captured(o, ifindex, packets))|
    ensures var s := AllOctets(o, Captured(o, ifindex, packets))[..c];
            Fits(o, s, MAX_FRAME_SIZE) && Shown(Readings(o, s)) == WholeSeen(o, ifindex, packets, c)
  {
    hide AllOctets, Fits, Readings, Shown, Wanted, Captured, AllSeen, Whole;
    var kept := Captured(o, ifindex, packets);
    CapturedAreSmall(o, ifindex, packets);
    CapturedAreWanted(o, ifindex, packets);
    CutFileIsRead(o, kept, c);
    CapturedFits(o, kept, c);
    ShownOfPrefix(o, ifindex, kept, Whole(o, kept, c));
  }

  lemma {:induction false} CapturedAreSmall(o: Order, ifindex: int, packets: seq<Packet>)
    requires Small(packets)
    ensures Small(Captured(o, ifindex, packets))
  {
    if packets != [] {
      CapturedAreSmall(o, ifindex, packets[1..]);
    }
  }

  lemma {:induction false} AllSeenPrefix(packets: seq<Packet>, n: nat)
    requires n <= |packets|
    ensures AllSeen(packets)[..n] == AllSeen(packets[..n])
  {
    if n > 0 {
      AllSeenPrefix(packets[1..], n - 1);
      assert packets[..n][1..] == packets[1..][..n - 1];
    }
  }

  lemma ShownOfPrefix(o: Order, ifindex: int, kept: seq<Packet>, n: nat)
    requires n <= |kept| && AllWanted(o, ifindex, kept)
    ensures Shown(AllSeen(kept)[..n]) == if o.BigEndian? then AllSeen(kept)[..n] else []
  {
    AllSeenPrefix(kept, n);
    ShownOfSeen(o, ifindex, kept[..n]);
  }

  /** A capture, of which `c` octets are kept, and its replay. */
  method RecordAndReplay(writer: Order, reader: Order, ifindex: int, packets: seq<Packet>, c: nat)
      returns (accepted: bool, frames: seq<Reading>)
    requires Small(packets) && AllValid(Captured(writer, ifindex, packets))
    requires HEADER_SIZE <= c <= |FileOf(writer, ifindex, packets)|
    ensures accepted <==> reader == writer
    ensures frames == if accepted then WholeSeen(writer, ifindex, packets, c - HEADER_SIZE) else []
  {
    hide HeaderOctets, AllOctets, Accepts, Fits, Readings, Shown, Captured, WholeSeen, Small, AllValid, FileOf;
    CutCaptureShows(writer, reader, ifindex, packets, c);
    var file := Record(writer, ifindex, packets);
    frames := [];
    var cut := new File(file.octets[..c]);
    accepted := Check(reader, cut);
    if accepted {
      var buf := new NetBuf(MAX_FRAME_SIZE);
      var fits;
      frames, fits := Replay(reader, cut, buf);
    }
  }

  method Record(o: Order, ifindex: int, packets: seq<Packet>) returns (file: File)
    requires Small(packets) && AllValid(Captured(o, ifindex, packets))
    ensures fresh(file) && file.octets == FileOf(o, ifindex, packets)
  {
    hide HeaderOctets, AllOctets, Captured, Small, AllValid, Octets, Wanted;
    file := new File([]);
    WriteInit(o, file);
    assert file.octets == HeaderOctets(o);
    assert file.Valid();
    var buf := new NetBuf(MAX_FRAME_SIZE);
    assert buf.truesize >= MAX_FRAME_SIZE;
    Live(o, ifindex, packets, file, buf);
  }

  lemma ShownStep(o: Order, s: seq<byte>, was: seq<Reading>)
    ensures var r := ReadOne(o, s);
            was + Shown(Readings(o, s)) ==
            if r.Failed? then was
            else
              (if r.protocol == ETH_P_IRDA && r.len != 0 then was + [r] else was) +
              Shown(Readings(o, s[RECORD_SIZE + SLL_SIZE + |r.data|..]))
  {
    hide ReadOne, Shown;
    var r := ReadOne(o, s);
    if r.Failed? {
      NothingIsShown();
    } else {
      ReadingsStep(o, s);
      ShownCons(r, Readings(o, s[RECORD_SIZE + SLL_SIZE + |r.data|..]), was);
    }
  }

  lemma NothingIsShown()
    ensures Shown([]) == []
  {
  }

  lemma ShownCons(r: Reading, later: seq<Reading>, was: seq<Reading>)
    requires r.Got?
    ensures was + Shown([r] + later) ==
            (if r.protocol == ETH_P_IRDA && r.len != 0 then was + [r] else was) + Shown(later)
  {
    assert ([r] + later)[1..] == later;
    Associative(was, [r], Shown(later));
  }
}
