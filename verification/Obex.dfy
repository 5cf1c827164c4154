/**
 OBEX decoding in irdadump (obex.c): a frame header, then a list of object headers whose lengths
 follow from the two top bits of their identifiers (section 2.1 "OBEX Headers" of the IrDA OBEX
 specification).
 */
module Obex {
  import opened Bytes
  import opened NetBufs

  // ---- Object headers ----

  datatype Kind = Unicode | ByteSequence | OneByte | FourByte

  function KindOf(hi: byte): Kind {
    if hi < 0x40 then Unicode
    else if hi < 0x80 then ByteSequence
    else if hi < 0xc0 then OneByte
    else FourByte
  }

  datatype Header = Header(hi: byte, value: seq<byte>)
  {
    predicate Valid() {
      match KindOf(hi)
      case OneByte => |value| == 1
      case FourByte => |value| == 4
      case _ => |value| + 3 < 0x1_0000
    }
  }

  function Encode(h: Header): (s: seq<byte>)
    requires h.Valid()
  {
    match KindOf(h.hi)
    case OneByte => [h.hi] + h.value
    case FourByte => [h.hi] + h.value
    case _ => [h.hi] + Be16(|h.value| + 3) + h.value
  }

  predicate AllValid(hs: seq<Header>) {
    forall i :: 0 <= i < |hs| ==> hs[i].Valid()
  }

  function EncodeEach(hs: seq<Header>): (r: seq<seq<byte>>)
    requires AllValid(hs)
    ensures |r| == |hs|
  {
    if hs == [] then [] else [Encode(hs[0])] + EncodeEach(hs[1..])
  }

  function EncodeAll(hs: seq<Header>): seq<byte>
    requires AllValid(hs)
  {
    Flatten(EncodeEach(hs))
  }

  // ---- The walk over the headers of a message ----

  /** A length on the wire counts the three octets before the value, in 16 bits. */
  function ValueLen(wire: nat): nat { (wire + 0x1_0000 - 3) % 0x1_0000 }

  /** How far the parser goes at the front of a message. It never stays where it is. */
  function HeaderLen(s: seq<byte>): (n: nat)
    requires s != []
    ensures n >= 2
  {
    match KindOf(s[0])
    case OneByte => 2
    case FourByte => 5
    case _ => if |s| < 3 then 3 else 3 + ValueLen(FromBe16(s[1..3]))
  }

  /** Which headers hold text, in numbers. */
  lemma TextsInNumbers(hi: byte)
    ensures IsText(hi) <==> hi in {0x01, 0x31, 0x42, 0x46}
  {
  }

  /** How far it goes, octet by octet. */
  lemma LengthInOctets(s: seq<byte>)
    requires s != []
    ensures s[0] >= 0xc0 ==> HeaderLen(s) == 5
    ensures 0x80 <= s[0] < 0xc0 ==> HeaderLen(s) == 2
    ensures s[0] < 0x80 && |s| >= 3 ==>
              var wire := 0x100 * s[1] as int + s[2];
              HeaderLen(s) == if wire >= 3 then wire else wire + 0x1_0000
  {
    if s[0] < 0x80 && |s| >= 3 {
      MostSignificantFirst(s[1], s[2], 0, 0);
      assert s[1..3] == [s[1], s[2]];
    }
  }

  /** The headers that the parser finds complete, each with all its octets. */
  function Visits(s: seq<byte>): seq<seq<byte>>
    decreases |s|
  {
    if s == [] || HeaderLen(s) > |s| then []
    else [s[..HeaderLen(s)]] + Visits(s[HeaderLen(s)..])
  }

  /** What is left when it stops. */
  function Rest(s: seq<byte>): seq<byte>
    decreases |s|
  {
    if s == [] || HeaderLen(s) > |s| then s else Rest(s[HeaderLen(s)..])
  }

  /** No octet is skipped or visited twice. */
  lemma {:induction false} VisitsCover(s: seq<byte>)
    ensures s == Flatten(Visits(s)) + Rest(s)
    decreases |s|
  {
    if s != [] && HeaderLen(s) <= |s| {
      var n := HeaderLen(s);
      VisitsCover(s[n..]);
      FlattenCons(s[..n], Visits(s[n..]));
      Associative(s[..n], Flatten(Visits(s[n..])), Rest(s[n..]));
      hide Flatten;
      assert s == s[..n] + s[n..];
    }
  }

  lemma HeaderLenOfEncoded(h: Header, tail: seq<byte>)
    requires h.Valid()
    ensures |Encode(h)| > 0 && HeaderLen(Encode(h) + tail) == |Encode(h)|
  {
    var s := Encode(h) + tail;
    if KindOf(h.hi) in {Unicode, ByteSequence} {
      assert s[1..3] == Be16(|h.value| + 3);
    }
  }

  /** The walk over encoded headers visits exactly those headers, in order, and ends at the end. */
  lemma {:induction false} VisitsEncoded(hs: seq<Header>)
    requires AllValid(hs)
    ensures Visits(EncodeAll(hs)) == EncodeEach(hs) && Rest(EncodeAll(hs)) == []
    decreases |hs|
  {
    if hs != [] {
      var e, tail := Encode(hs[0]), EncodeAll(hs[1..]);
      HeaderLenOfEncoded(hs[0], tail);
      VisitsEncoded(hs[1..]);
      hide Encode, HeaderLen;
      assert EncodeEach(hs)[1..] == EncodeEach(hs[1..]);
      TakeConcat(e, tail, |e|);
      DropConcat(e, tail, |e|);
    }
  }

  /** Takes a visited header apart again. */
  function Decode(e: seq<byte>): (h: Header)
    requires |e| >= 2
  {
    if KindOf(e[0]) in {OneByte, FourByte} || |e| < 3 then Header(e[0], e[1..]) else Header(e[0], e[3..])
  }

  lemma DecodeVisited(s: seq<byte>)
    requires s != [] && HeaderLen(s) <= |s| < 0x1_0000
    ensures Decode(s[..HeaderLen(s)]).Valid()
    ensures Encode(Decode(s[..HeaderLen(s)])) == s[..HeaderLen(s)]
  {
    var e := s[..HeaderLen(s)];
    if KindOf(s[0]) in {Unicode, ByteSequence} {
      var w := FromBe16(s[1..3]);
      assert w >= 3 && |e| == w;
      assert Be16(w) == s[1..3];
      assert e == [e[0]] + s[1..3] + e[3..];
    } else {
      assert e == [e[0]] + e[1..];
    }
  }

  lemma {:induction false} DecodeAll(s: seq<byte>) returns (hs: seq<Header>)
    requires |s| < 0x1_0000 && Rest(s) == []
    ensures AllValid(hs) && EncodeAll(hs) == s
    decreases |s|
  {
    if s == [] {
      hs := [];
    } else {
      var n := HeaderLen(s);
      var more := DecodeAll(s[n..]);
      DecodeVisited(s);
      hide HeaderLen, Encode, Decode;
      var h := Decode(s[..n]);
      hs := [h] + more;
      assert hs[1..] == more;
      assert EncodeEach(hs)[1..] == EncodeEach(more);
      assert s == s[..n] + s[n..];
    }
  }

  ghost predicate IsEncoding(s: seq<byte>) {
    exists hs :: AllValid(hs) && EncodeAll(hs) == s
  }

  /** A message below 64 KB is found complete exactly when it is a list of encoded headers. */
  lemma CompleteIffEncoded(s: seq<byte>)
    requires |s| < 0x1_0000
    ensures Rest(s) == [] <==> IsEncoding(s)
  {
    if Rest(s) == [] {
      var hs := DecodeAll(s);
    }
    if IsEncoding(s) {
      var hs :| AllValid(hs) && EncodeAll(hs) == s;
      VisitsEncoded(hs);
    }
  }

  // ---- What is shown of a header ----

  /** The low octets of 16-bit characters, up to the first that is zero. */
  function Narrow(s: seq<byte>): (r: seq<byte>)
    ensures 2 * |r| <= |s|
  {
    if |s| < 2 || s[1] == 0 then [] else [s[1]] + Narrow(s[2..])
  }

  /** Some 16-bit character has a zero low octet. */
  predicate Terminated(s: seq<byte>) { 2 * |Narrow(s)| + 1 < |s| }

  function Widen(text: seq<byte>): seq<byte> {
    if text == [] then [0, 0] else [0, text[0]] + Widen(text[1..])
  }

  lemma {:induction false} NarrowWidened(text: seq<byte>)
    requires 0 !in text
    ensures Terminated(Widen(text)) && Narrow(Widen(text)) == text
  {
    if text != [] {
      NarrowWidened(text[1..]);
      assert Widen(text)[2..] == Widen(text[1..]);
    }
  }

  /** A text is widened with zeros, each before its octet, and ends with two. */
  lemma {:induction false} WidenedAt(text: seq<byte>, k: nat)
    requires k <= |text|
    ensures |Widen(text)| == 2 * |text| + 2
    ensures Widen(text)[2 * k] == 0 && Widen(text)[2 * k + 1] == if k < |text| then text[k] else 0
  {
    if text != [] {
      WidenedAt(text[1..], if k > 0 then k - 1 else 0);
      var wide, rest := Widen(text), Widen(text[1..]);
      hide Widen;
      assert wide == [0, text[0]] + rest;
      if k > 0 {
        assert wide[2 * k] == rest[2 * (k - 1)] && wide[2 * k + 1] == rest[2 * (k - 1) + 1];
      }
    }
  }

  /** Turns 16-bit characters into octets in place (unicode_to_char). */
  method UnicodeToChar(buf: array<byte>) returns (n: nat)
    requires Terminated(buf[..])
    modifies buf
    ensures n == |Narrow(old(buf[..]))| < buf.Length
    ensures buf[..n] == Narrow(old(buf[..])) && buf[n] == 0
    ensures forall k :: n < k < buf.Length ==> buf[k] == old(buf[k])
  {
    ghost var s, text := buf[..], Narrow(buf[..]);
    NarrowStops(s);
    hide Narrow, Terminated;
    n := 0;
    buf[n] := buf[2 * n + 1];
    while buf[n] != 0
      invariant n <= |text|
      invariant forall k :: 0 <= k < n ==> buf[k] == text[k]
      invariant forall k :: n < k < buf.Length ==> buf[k] == s[k]
      invariant buf[n] == s[2 * n + 1]
      decreases |text| - n
    {
      n := n + 1;
      buf[n] := buf[2 * n + 1];
    }
  }

  /** It leaves the odd octets, up to the first that is zero. */
  lemma {:induction false} NarrowStops(s: seq<byte>)
    requires Terminated(s)
    ensures 2 * |Narrow(s)| + 1 < |s| && s[2 * |Narrow(s)| + 1] == 0
    ensures forall i :: 0 <= i < |Narrow(s)| ==> Narrow(s)[i] == s[2 * i + 1] != 0
  {
    NarrowStep(s);
    hide Narrow;
    if s[1] != 0 {
      var t, rest := s[2..], Narrow(s[2..]);
      NarrowStops(t);
      assert s[2 * |Narrow(s)| + 1] == t[2 * |rest| + 1];
      forall i | 0 <= i < |Narrow(s)|
        ensures Narrow(s)[i] == s[2 * i + 1] != 0
      {
        if i > 0 {
          assert Narrow(s)[i] == rest[i - 1] == t[2 * (i - 1) + 1] == s[2 * i + 1];
        }
      }
    }
  }

  lemma NarrowStep(s: seq<byte>)
    requires Terminated(s)
    ensures |s| >= 2 && Narrow(s) == if s[1] == 0 then [] else [s[1]] + Narrow(s[2..])
    ensures s[1] != 0 ==> Terminated(s[2..])
  {
  }

  datatype Shown =
    | Text(text: seq<byte>)
    | Count(n: nat)
    | Number(value: int)
    | Identifier(hi: byte)
    | Nothing
    | Unspecified

  const HEADER_NAME: byte := 0x01
  const HEADER_ANAME: byte := 0x31
  const HEADER_TYPE: byte := 0x42
  const HEADER_TARGET: byte := 0x46

  predicate IsText(hi: byte) { hi in {HEADER_NAME, HEADER_ANAME, HEADER_TYPE, HEADER_TARGET} }

  /**
   What the dump shows of a complete header. A 16-bit text without an end makes the parser read what
   happens to follow its scratch copy; a one-octet header shows its identifier, not its value.
   */
  function Show(e: seq<byte>): Shown
    requires e != [] && |e| >= HeaderLen(e)
  {
    match KindOf(e[0])
    case Unicode => if |e| == 3 || Terminated(e[3..]) then Text(Narrow(e[3..])) else Unspecified
    case ByteSequence =>
      if !IsText(e[0]) then Count(|e| - 3) else if |e| == 3 then Nothing else Text(CString(e[3..]))
    case OneByte => Identifier(e[0])
    case FourByte => Number(Signed32(FromBe32(e[1..5])))
  }

  /**
   Texts, lengths and numbers are shown as they were encoded. Of a one-octet value the identifier is
   shown, so that it is right only when the two are the same.
   */
  lemma ShowEncoded(h: Header)
    requires h.Valid()
    ensures Encode(h) != [] && |Encode(h)| >= HeaderLen(Encode(h))
    ensures KindOf(h.hi) == ByteSequence && !IsText(h.hi) ==> Show(Encode(h)) == Count(|h.value|)
    ensures KindOf(h.hi) == ByteSequence && IsText(h.hi) && h.value != [] ==> Show(Encode(h)) == Text(CString(h.value))
    ensures KindOf(h.hi) == ByteSequence && IsText(h.hi) && h.value != [] && 0 !in h.value ==>
              Show(Encode(h)) == Text(h.value)
    ensures KindOf(h.hi) == OneByte ==> (Show(Encode(h)) == Identifier(h.value[0]) <==> h.value[0] == h.hi)
    ensures KindOf(h.hi) == FourByte ==> Show(Encode(h)) == Number(Signed32(FromBe32(h.value)))
    ensures forall text :: KindOf(h.hi) == Unicode && 0 !in text && h.value == Widen(text) ==>
              Show(Encode(h)) == Text(text)
  {
    HeaderLenOfEncoded(h, []);
    assert Encode(h) + [] == Encode(h);
    var e := Encode(h);
    if KindOf(h.hi) in {Unicode, ByteSequence} {
      assert e[3..] == h.value;
      if 0 !in h.value {
        CStringWhole(h.value);
      }
    } else {
      assert e[1..] == h.value;
      assert KindOf(h.hi) == FourByte ==> e[1..5] == h.value;
    }
    forall text | KindOf(h.hi) == Unicode && 0 !in text && h.value == Widen(text)
      ensures Show(e) == Text(text)
    {
      NarrowWidened(text);
    }
  }

  lemma {:induction false} TerminatedIff(s: seq<byte>)
    ensures Terminated(s) <==> exists k :: 0 <= k && 2 * k + 1 < |s| && s[2 * k + 1] == 0
  {
    if Terminated(s) {
      NarrowStops(s);
      assert s[2 * |Narrow(s)| + 1] == 0;
    } else if |s| >= 2 {
      TerminatedIff(s[2..]);
      forall k | 0 <= k && 2 * k + 1 < |s|
        ensures s[2 * k + 1] != 0
      {
        if k > 0 {
          assert s[2..][2 * (k - 1) + 1] == s[2 * k + 1];
        }
      }
    }
  }

  /** A text of 16-bit characters is shown by their low octets, up to the first that is zero. */
  predicate IsLowOctets(text: seq<byte>, s: seq<byte>) {
    && 2 * |text| <= |s|
    && (forall k :: 0 <= k < |text| ==> text[k] == s[2 * k + 1] != 0)
    && (s == [] || (2 * |text| + 1 < |s| && s[2 * |text| + 1] == 0))
  }

  /** What is shown of a complete header, octet by octet. */
  lemma ShownInOctets(s: seq<byte>)
    requires s != [] && |s| == HeaderLen(s)
    ensures s[0] >= 0xc0 ==>
              var value := 0x100_0000 * s[1] as int + 0x1_0000 * s[2] as int + 0x100 * s[3] as int + s[4];
              |s| == 5 && Show(s) == Number(Signed32(value))
    ensures 0x80 <= s[0] < 0xc0 ==> Show(s) == Identifier(s[0])
    ensures 0x40 <= s[0] < 0x80 && s[0] !in {0x42, 0x46} ==> Show(s) == Count(|s| - 3)
    ensures s[0] in {0x42, 0x46} ==>
              |s| >= 3 && Show(s) == if |s| == 3 then Nothing else Text(CString(s[3..]))
    ensures s[0] < 0x40 ==>
              |s| >= 3 &&
              (Show(s).Text? <==> |s| == 3 || exists k :: 0 <= k && 2 * k + 1 < |s[3..]| && s[3..][2 * k + 1] == 0)
    ensures s[0] < 0x40 && Show(s).Text? ==> IsLowOctets(Show(s).text, s[3..])
  {
    LengthInOctets(s);
    if s[0] >= 0xc0 {
      MostSignificantFirst(s[1], s[2], s[3], s[4]);
      assert s[1..5] == [s[1], s[2], s[3], s[4]];
    } else if s[0] < 0x40 {
      TerminatedIff(s[3..]);
      if |s| > 3 && Terminated(s[3..]) {
        NarrowStops(s[3..]);
      }
    }
  }

  /** A LENGTH header of a PUT, as it arrives. */
  lemma LengthHeader()
    ensures var s: seq<byte> := [0xc3, 0, 0, 0x25, 0x80];
            HeaderLen(s) == |s| == 5 && Show(s) == Number(9600) && Visits(s) == [s] && Rest(s) == []
  {
    var s: seq<byte> := [0xc3, 0, 0, 0x25, 0x80];
    LengthInOctets(s);
    ShownInOctets(s);
    assert s[..5] == s && s[5..] == [];
  }

  /** A one-octet value that is not shown. */
  lemma OneOctetHidden()
    ensures var h := Header(0x80, [7]);
            && h.Valid() && Encode(h) != [] && |Encode(h)| >= HeaderLen(Encode(h))
            && Show(Encode(h)) == Identifier(0x80) != Identifier(7)
  {
    ShowEncoded(Header(0x80, [7]));
  }

  // ---- The parser ----

  datatype Seen = Seen(octets: seq<byte>, shown: Shown)

  ghost predicate Complete(vs: seq<seq<byte>>) {
    forall i :: 0 <= i < |vs| ==> vs[i] != [] && |vs[i]| == HeaderLen(vs[i])
  }

  lemma {:induction false} VisitsComplete(s: seq<byte>)
    ensures Complete(Visits(s))
    decreases |s|
  {
    if s != [] && HeaderLen(s) <= |s| {
      VisitsComplete(s[HeaderLen(s)..]);
      HeaderLenOfPrefix(s);
    }
  }

  lemma HeaderLenOfPrefix(s: seq<byte>)
    requires s != [] && HeaderLen(s) <= |s|
    ensures HeaderLen(s[..HeaderLen(s)]) == HeaderLen(s)
  {
    if KindOf(s[0]) in {Unicode, ByteSequence} {
      assert s[..HeaderLen(s)][1..3] == s[1..3];
    }
  }

  function ShowEach(vs: seq<seq<byte>>): seq<Seen>
    requires Complete(vs)
  {
    if vs == [] then [] else [Seen(vs[0], Show(vs[0]))] + ShowEach(vs[1..])
  }

  /** The 16-bit length after the identifier; whatever lies behind a message that is too short for it. */
  method WireLength(buf: NetBuf) returns (wire: nat)
    requires buf.Valid() && buf.len > 0
    ensures wire < 0x1_0000
    ensures buf.len >= 3 ==> wire == FromBe16(buf.Contents()[1..3])
  {
    var high: byte, low: byte := *, *;
    if buf.data + 2 < buf.mem.Length {
      high, low := buf.mem[buf.data + 1], buf.mem[buf.data + 2];
    }
    wire := FromBe16([high, low]);
    if buf.len >= 3 {
      ghost var s := buf.Contents();
      assert s[1] == high && s[2] == low;
      assert s[1..3] == [s[1], s[2]];
    }
  }

  /**
   One header (parse_obex_header). The length it returns says whether the header is complete; what
   is shown is stated for complete headers.
   */
  method ParseHeader(buf: NetBuf) returns (len: nat, shown: Shown)
    requires buf.Valid() && buf.len > 0
    ensures len >= 2 && (len <= buf.len <==> HeaderLen(buf.Contents()) <= buf.len)
    ensures len <= buf.len ==> len == HeaderLen(buf.Contents())
    ensures len <= buf.len ==>
              HeaderLen(buf.Contents()[..len]) == len && shown == Show(buf.Contents()[..len])
  {
    ghost var s := buf.Contents();
    var hi := buf.mem[buf.data];
    assert hi == s[0];
    match KindOf(hi) {
      case OneByte => len := 2;
      case FourByte => len := 5;
      case _ =>
        var wire := WireLength(buf);
        len := 3 + ValueLen(wire);
    }
    shown := Unspecified;
    if len <= buf.len {
      var e := buf.mem[buf.data..buf.data + len];
      buf.Front(len);
      HeaderLenOfPrefix(s);
      assert hi == e[0];
      match KindOf(hi) {
        case OneByte => shown := Identifier(hi);
        case FourByte => shown := Number(Signed32(FromBe32(e[1..5])));
        case _ => shown := ShowValue(hi, e[3..]);
      }
    }
  }

  /** The value of a header with a length, by way of a scratch copy. */
  method ShowValue(hi: byte, value: seq<byte>) returns (shown: Shown)
    requires KindOf(hi) in {Unicode, ByteSequence}
    ensures KindOf(hi) == Unicode ==>
              shown == if value == [] || Terminated(value) then Text(Narrow(value)) else Unspecified
    ensures KindOf(hi) == ByteSequence ==>
              shown == if !IsText(hi) then Count(|value|) else if value == [] then Nothing else Text(CString(value))
  {
    if KindOf(hi) == Unicode {
      if value == [] {
        return Text([]);
      }
      if !Terminated(value) {
        return Unspecified;
      }
      var scratch := new byte[|value|](i requires 0 <= i < |value| => value[i]);
      assert scratch[..] == value;
      var n := UnicodeToChar(scratch);
      return Text(scratch[..n]);
    } else if IsText(hi) {
      return if value == [] then Nothing else Text(CString(value));
    } else {
      return Count(|value|);
    }
  }

  /** The octets after the frame header, unless the frame is too short to have one. */
  function Body(s: seq<byte>, offset: nat): seq<byte> {
    if offset <= |s| then s[offset..] else s
  }

  /**
   Parses the headers of a frame (parse_obex_headers). It ends on every message, having shown each
   complete header once and in order, and reports what is left over.
   */
  method ParseHeaders(buf: NetBuf, offset: nat) returns (seen: seq<Seen>, unterminated: bool)
    requires buf.Valid()
    modifies buf`data, buf`len
    ensures buf.Valid()
    ensures var body := Body(old(buf.Contents()), offset);
            && Complete(Visits(body)) && seen == ShowEach(Visits(body))
            && buf.Contents() == Rest(body)
            && unterminated == (Rest(body) != [])
  {
    ghost var body := Body(buf.Contents(), offset);
    var _ := buf.Pull(offset);
    seen := [];
    unterminated := false;
    VisitsComplete(body);
    ghost var shownAll, rest := ShowEach(Visits(body)), Rest(body);
    assert shownAll == [] + ShowEach(Visits(body));
    while buf.len > 0
      invariant buf.Valid() && !unterminated && rest == Rest(buf.Contents())
      invariant Complete(Visits(buf.Contents()))
      invariant shownAll == seen + ShowEach(Visits(buf.Contents()))
      decreases buf.len
    {
      ghost var s := buf.Contents();
      hide *;
      var one, ok := ParseOne(buf);
      if !ok {
        Stop(s);
        unterminated := true;
        break;
      }
      ShowStep(s);
      Associative(seen, one, ShowEach(Visits(buf.Contents())));
      seen := seen + one;
    }
  }

  /** One round of the loop: a header is shown and taken off, or does not fit. */
  method ParseOne(buf: NetBuf) returns (one: seq<Seen>, ok: bool)
    requires buf.Valid() && buf.len > 0
    modifies buf`data, buf`len
    ensures buf.Valid()
    ensures var s := old(buf.Contents());
            && s != [] && ok == (HeaderLen(s) <= |s|)
            && (ok ==>
                  && buf.Contents() == s[HeaderLen(s)..] && buf.len < old(buf.len)
                  && HeaderLen(s[..HeaderLen(s)]) == HeaderLen(s)
                  && one == [Seen(s[..HeaderLen(s)], Show(s[..HeaderLen(s)]))])
            && (!ok ==> buf.Contents() == s)
  {
    var len, shown := ParseHeader(buf);
    hide HeaderLen, Show;
    one := [];
    if len <= buf.len {
      buf.Front(len);
      one := [Seen(buf.mem[buf.data..buf.data + len], shown)];
    }
    ok := buf.Pull(len);
  }

  lemma Stop(s: seq<byte>)
    requires s != [] && HeaderLen(s) > |s| && Complete(Visits(s))
    ensures ShowEach(Visits(s)) == [] && Rest(s) == s
  {
  }

  lemma ShowStep(s: seq<byte>)
    requires s != [] && HeaderLen(s) <= |s| && Complete(Visits(s))
    ensures var n := HeaderLen(s);
            && Complete(Visits(s[n..])) && HeaderLen(s[..n]) == n && Rest(s) == Rest(s[n..])
            && ShowEach(Visits(s)) == [Seen(s[..n], Show(s[..n]))] + ShowEach(Visits(s[n..]))
  {
    HeaderLenOfPrefix(s);
    VisitsComplete(s[HeaderLen(s)..]);
    assert Visits(s)[1..] == Visits(s[HeaderLen(s)..]);
  }

  // ---- Frames ----

  const OBEX_CONNECT: byte := 0x00
  const OBEX_PUT: byte := 0x02
  const OBEX_GET: byte := 0x03
  const OBEX_SETPATH: byte := 0x05
  const OBEX_CONTINUE: byte := 0x10
  const OBEX_SUCCESS: byte := 0x20
  const NO_COMMAND: byte := 0xff

  const MINIMAL_FRAME := 3
  const SETPATH_FRAME := 5
  const CONNECT_FRAME := 7

  /** The frame's operation, without its final bit. */
  function Opcode(s: seq<byte>): byte
    requires s != []
  {
    s[0] % 0x80
  }

  /**
   Where the headers of a frame begin, or -1 when none are looked for. The answer to CONNECT alone
   repeats the connection parameters, and only the last command tells it from other answers.
   */
  function HeadersAt(opcode: byte, command: bool, lastCommand: byte): int {
    if command then
      if opcode in {OBEX_PUT, OBEX_GET} then MINIMAL_FRAME
      else if opcode == OBEX_SETPATH then SETPATH_FRAME
      else -1
    else
      if opcode == OBEX_CONTINUE then MINIMAL_FRAME
      else if opcode == OBEX_SUCCESS then if lastCommand == OBEX_CONNECT then CONNECT_FRAME else MINIMAL_FRAME
      else -1
  }

  /** Where headers begin, in numbers; a decoder that has seen no command is like one that saw no CONNECT. */
  lemma HeadersInNumbers(opcode: byte, lastCommand: byte)
    ensures HeadersAt(opcode, true, lastCommand) == if opcode in {2, 3} then 3 else if opcode == 5 then 5 else -1
    ensures HeadersAt(opcode, false, lastCommand) ==
            if opcode == 0x10 || (opcode == 0x20 && lastCommand != 0) then 3 else if opcode == 0x20 then 7 else -1
    ensures NO_COMMAND == 0xff
  {
  }

  class Decoder {
    var lastCommand: byte
    /** The operations of all commands so far. */
    ghost var commands: seq<byte>

    ghost predicate Valid()
      reads this
    {
      lastCommand == if commands == [] then NO_COMMAND else commands[|commands| - 1]
    }

    constructor ()
      ensures Valid() && commands == []
    {
      lastCommand, commands := NO_COMMAND, [];
    }

    /**
     Decodes one frame (parse_obex). The headers shown are those behind the frame header that the
     operation calls for, given the latest command frame that was not empty.
     */
    method Parse(buf: NetBuf, command: bool) returns (seen: seq<Seen>, unterminated: bool)
      requires Valid() && buf.Valid()
      modifies this, buf`data, buf`len
      ensures Valid() && buf.Valid()
      ensures commands == old(commands) + if command && old(buf.len) > 0 then [Opcode(old(buf.Contents()))] else []
      ensures command && old(buf.len) > 0 ==> lastCommand == old(buf.mem[buf.data]) % 0x80
      ensures !(command && old(buf.len) > 0) ==> lastCommand == old(lastCommand)
      ensures old(buf.len) == 0 ==> seen == [] && !unterminated
      ensures old(buf.len) > 0 ==>
                var s := old(buf.Contents());
                var last := if old(commands) == [] then NO_COMMAND else old(commands)[|old(commands)| - 1];
                var at := HeadersAt(Opcode(s), command, last);
                if at < 0 then seen == [] && !unterminated && buf.Contents() == s
                else
                  && Complete(Visits(Body(s, at))) && seen == ShowEach(Visits(Body(s, at)))
                  && buf.Contents() == Rest(Body(s, at))
                  && unterminated == (Rest(Body(s, at)) != [])
    {
      if buf.len == 0 {
        return [], false;
      }
      var opcode := buf.mem[buf.data] % 0x80;
      assert opcode == Opcode(buf.Contents());
      var at := HeadersAt(opcode, command, lastCommand);
      if command {
        lastCommand := opcode;
        commands := commands + [opcode];
      }
      hide Body, Complete, Visits, ShowEach, Rest;
      if at < 0 {
        return [], false;
      }
      seen, unterminated := ParseHeaders(buf, at);
    }
  }
}
