/**
 IrCOMM parameters in irdadump (ircomm.c): a control length, that many octets of parameters, each
 an identifier, a length and a value, and then the payload.
 */
module IrComm {
  import opened Bytes
  import opened NetBufs

  const SERVICE_TYPE: byte := 0x00
  const PORT_TYPE: byte := 0x01
  const DATA_RATE: byte := 0x10
  const DATA_FORMAT: byte := 0x11
  const FLOW_CONTROL: byte := 0x12
  const XON_XOFF_CHAR: byte := 0x13
  const DTELINE_STATE: byte := 0x20

  // ---- Parameters ----

  datatype Param = Param(pi: byte, value: seq<byte>)

  predicate AllValid(ps: seq<Param>) {
    forall i :: 0 <= i < |ps| ==> |ps[i].value| < 256
  }

  function Encode(p: Param): seq<byte>
    requires |p.value| < 256
  {
    [p.pi, |p.value|] + p.value
  }

  function EncodeAll(ps: seq<Param>): seq<byte>
    requires AllValid(ps)
  {
    if ps == [] then [] else Encode(ps[0]) + EncodeAll(ps[1..])
  }

  // ---- The walk ----

  datatype Shown = Octets(octets: seq<byte>) | Rate(value: int) | Silent | Unspecified

  datatype Seen = Seen(at: nat, pi: byte, shown: Shown)

  /** Identifiers are shown without the critical bit. */
  function Plain(pi: byte): byte { if pi < 0x80 then pi else pi - 0x80 }

  /** How many octets of its value the parser looks at. */
  function Need(pi: byte): nat {
    if pi == DATA_RATE then 4
    else if pi == XON_XOFF_CHAR then 2
    else if pi in {SERVICE_TYPE, PORT_TYPE, DATA_FORMAT, FLOW_CONTROL, DTELINE_STATE} then 1
    else 0
  }

  /** What is shown of the parameter whose value the octets `v` begin with. */
  function Show(pi: byte, v: seq<byte>): Shown {
    if |v| < Need(pi) then Unspecified
    else if pi == DATA_RATE then Rate(Signed32(FromBe32(v[..4])))
    else if Need(pi) == 0 then Silent
    else Octets(v[..Need(pi)])
  }

  /** How many octets the parameter at the front says it has. */
  function Span(s: seq<byte>): (n: nat)
    requires |s| >= 2
    ensures n >= 2
  {
    2 + s[1] as int
  }

  /** What follows the parameter at the front, if the message goes that far. */
  function Skip(s: seq<byte>): (r: seq<byte>)
    requires |s| >= 2
    ensures |r| < |s|
  {
    if Span(s) <= |s| then s[Span(s)..] else []
  }

  /** With `left` octets of parameters to go, no parameter begins outside the message. */
  predicate Inside(s: seq<byte>, left: int)
    decreases |s|
  {
    left <= 0 || (|s| >= 2 && Inside(Skip(s), left - Span(s)))
  }

  /** The parameters that the parser shows, as long as they begin in the message. */
  function Walk(s: seq<byte>, at: nat, left: int): seq<Seen>
    decreases |s|
  {
    if left <= 0 || |s| < 2 then []
    else [SeenAt(s, at)] + Walk(Skip(s), at + Span(s), left - Span(s))
  }

  function SeenAt(s: seq<byte>, at: nat): Seen
    requires |s| >= 2
  {
    Seen(at, Plain(s[0]), Show(Plain(s[0]), s[2..]))
  }

  /** What is seen of a parameter, octet by octet. */
  lemma SeenInOctets(s: seq<byte>, at: nat)
    requires |s| >= 2
    ensures var pi, seen := s[0] % 0x80, SeenAt(s, at);
            && Span(s) == 2 + s[1] as int
            && seen.at == at && seen.pi == pi
            && (pi in {0x00, 0x01, 0x11, 0x12, 0x20} ==>
                  seen.shown == if |s| >= 3 then Octets([s[2]]) else Unspecified)
            && (pi == 0x13 ==> seen.shown == if |s| >= 4 then Octets([s[2], s[3]]) else Unspecified)
            && (pi == 0x10 ==>
                  seen.shown ==
                  if |s| < 6 then Unspecified
                  else Rate(Signed32(0x100_0000 * s[2] as int + 0x1_0000 * s[3] as int + 0x100 * s[4] as int + s[5])))
            && (pi !in {0x00, 0x01, 0x10, 0x11, 0x12, 0x13, 0x20} ==> seen.shown == Silent)
  {
    var pi, v := s[0] % 0x80, s[2..];
    if |s| >= 3 {
      assert v[..1] == [s[2]];
    }
    if |s| >= 4 {
      assert v[..2] == [s[2], s[3]];
    }
    if |s| >= 6 {
      MostSignificantFirst(s[2], s[3], s[4], s[5]);
      assert v[..4] == [s[2], s[3], s[4], s[5]];
    }
  }

  /** The critical bit of an identifier makes no difference. */
  lemma CriticalBit(s: seq<byte>, t: seq<byte>, at: nat)
    requires |s| == |t| >= 2 && s[0] < 0x80 && t[0] == s[0] + 0x80 && s[1..] == t[1..]
    ensures SeenAt(t, at) == SeenAt(s, at) && SeenAt(t, at).pi == s[0] && Span(t) == Span(s)
  {
    assert s[2..] == s[1..][1..] == t[2..];
    assert s[1] == s[1..][0] == t[1];
  }

  /** A critical data rate, as it arrives. */
  lemma CriticalRate(at: nat)
    ensures SeenAt([0x90, 4, 0, 0, 0x25, 0x80], at) == Seen(at, 0x10, Rate(9600))
  {
    SeenInOctets([0x90, 4, 0, 0, 0x25, 0x80], at);
  }

  /** How far the walk falls short of its end; negative when it overshoots. */
  function Missing(s: seq<byte>, left: int): int
    decreases |s|
  {
    if left <= 0 || |s| < 2 then left else Missing(Skip(s), left - Span(s))
  }

  /** What should be shown of parameters that begin at place `n`. */
  function Expected(ps: seq<Param>, n: nat): seq<Seen>
    requires AllValid(ps)
  {
    if ps == [] then []
    else [Seen(n, Plain(ps[0].pi), Show(Plain(ps[0].pi), ps[0].value))] + Expected(ps[1..], n + |Encode(ps[0])|)
  }

  /** What is shown of them, given what follows: the parser takes octets from there when a value is too short. */
  function Met(ps: seq<Param>, payload: seq<byte>, n: nat): seq<Seen>
    requires AllValid(ps)
  {
    if ps == [] then []
    else
      var pi, rest := Plain(ps[0].pi), EncodeAll(ps[1..]) + payload;
      [Seen(n, pi, Show(pi, ps[0].value + rest))] + Met(ps[1..], payload, n + |Encode(ps[0])|)
  }

  /** Where parameters are and what they are. */
  function Places(ps: seq<Param>, n: nat): seq<(nat, byte)>
    requires AllValid(ps)
  {
    if ps == [] then [] else [(n, Plain(ps[0].pi))] + Places(ps[1..], n + |Encode(ps[0])|)
  }

  function Bare(seen: seq<Seen>): seq<(nat, byte)> {
    if seen == [] then [] else [(seen[0].at, seen[0].pi)] + Bare(seen[1..])
  }

  /** A value is as long as its identifier calls for, or even with what follows it there is too little. */
  predicate Own(p: Param, rest: seq<byte>) {
    |p.value| >= Need(Plain(p.pi)) || |p.value + rest| < Need(Plain(p.pi))
  }

  predicate AllOwn(ps: seq<Param>, payload: seq<byte>)
    requires AllValid(ps)
  {
    ps == [] || (Own(ps[0], EncodeAll(ps[1..]) + payload) && AllOwn(ps[1..], payload))
  }

  /** A value is shown as if nothing followed it exactly when that is so. */
  lemma ShownAsOwnIff(p: Param, rest: seq<byte>)
    ensures Show(Plain(p.pi), p.value + rest) == Show(Plain(p.pi), p.value) <==> Own(p, rest)
  {
    var need := Need(Plain(p.pi));
    if |p.value| >= need {
      assert (p.value + rest)[..need] == p.value[..need];
    }
  }

  /** The parameters are shown as encoded if and only if that is so for each of them. */
  lemma {:induction false} ShownAsExpectedIff(ps: seq<Param>, payload: seq<byte>, n: nat)
    requires AllValid(ps)
    ensures Met(ps, payload, n) == Expected(ps, n) <==> AllOwn(ps, payload)
    decreases |ps|
  {
    if ps != [] {
      var next := n + |Encode(ps[0])|;
      ShownAsOwnIff(ps[0], EncodeAll(ps[1..]) + payload);
      ShownAsExpectedIff(ps[1..], payload, next);
      hide Show, Own, Encode, EncodeAll, Plain;
      var met, expected := Met(ps, payload, n), Expected(ps, n);
      assert met[1..] == Met(ps[1..], payload, next) && expected[1..] == Expected(ps[1..], next);
      assert met == [met[0]] + met[1..] && expected == [expected[0]] + expected[1..];
    }
  }

  /** Whatever the values are, the parameters are met at their own places under their own identifiers. */
  lemma {:induction false} MetInPlace(ps: seq<Param>, payload: seq<byte>, n: nat)
    requires AllValid(ps)
    ensures Bare(Met(ps, payload, n)) == Places(ps, n)
    decreases |ps|
  {
    if ps != [] {
      MetInPlace(ps[1..], payload, n + |Encode(ps[0])|);
      hide Show, Encode, EncodeAll, Plain;
      assert Met(ps, payload, n)[1..] == Met(ps[1..], payload, n + |Encode(ps[0])|);
    }
  }

  lemma SeenEncoded(p: Param, tail: seq<byte>, at: nat)
    requires |p.value| < 256
    ensures var s := Encode(p) + tail;
            && |s| >= 2 && Span(s) == |Encode(p)| && Skip(s) == tail
            && SeenAt(s, at) == Seen(at, Plain(p.pi), Show(Plain(p.pi), p.value + tail))
  {
    DropConcat(Encode(p), tail, 2);
    assert Encode(p)[2..] == p.value;
    DropConcat(Encode(p), tail, |Encode(p)|);
  }

  lemma WalkStep(s: seq<byte>, at: nat, left: int)
    requires |s| >= 2 && left > 0
    ensures Inside(s, left) == Inside(Skip(s), left - Span(s))
    ensures Missing(s, left) == Missing(Skip(s), left - Span(s))
    ensures Walk(s, at, left) == [SeenAt(s, at)] + Walk(Skip(s), at + Span(s), left - Span(s))
  {
  }

  lemma InsideTwo(s: seq<byte>, left: int)
    requires left > 0 && (Inside(s, left) || Missing(s, left) == 0)
    ensures |s| >= 2
  {
  }

  lemma WalkPast(s: seq<byte>, at: nat, left: int)
    requires left <= 0
    ensures Walk(s, at, left) == []
  {
  }

  lemma WalkNothing(s: seq<byte>, at: nat)
    ensures AllValid([]) && EncodeAll([]) + s == s && EncodeAll([]) == []
    ensures Inside(s, 0) && Missing(s, 0) == 0 && Walk(s, at, 0) == Met([], s, at)
  {
  }

  lemma EncodedStep(ps: seq<Param>, payload: seq<byte>, at: nat)
    requires AllValid(ps) && ps != []
    ensures AllValid(ps[1..])
    ensures var s, tail := EncodeAll(ps) + payload, EncodeAll(ps[1..]) + payload;
            && |s| >= 2 && Skip(s) == tail && |EncodeAll(ps)| == Span(s) + |EncodeAll(ps[1..])|
            && Met(ps, payload, at) == [SeenAt(s, at)] + Met(ps[1..], payload, at + Span(s))
  {
    Associative(Encode(ps[0]), EncodeAll(ps[1..]), payload);
    SeenEncoded(ps[0], EncodeAll(ps[1..]) + payload, at);
    hide Show, Need, Plain, SeenAt;
  }

  /** Encoded parameters are each visited, and the walk ends at the payload. */
  lemma {:induction false} WalkEncoded(ps: seq<Param>, payload: seq<byte>, at: nat)
    requires AllValid(ps)
    ensures var s, left := EncodeAll(ps) + payload, |EncodeAll(ps)|;
            && Inside(s, left) && Missing(s, left) == 0
            && Walk(s, at, left) == Met(ps, payload, at)
    decreases |ps|
  {
    hide *;
    if ps == [] {
      WalkNothing(payload, at);
    } else {
      var s := EncodeAll(ps) + payload;
      EncodedStep(ps, payload, at);
      WalkEncoded(ps[1..], payload, at + Span(s));
      WalkStep(s, at, |EncodeAll(ps)|);
      assert |EncodeAll(ps)| - Span(s) == |EncodeAll(ps[1..])|;
    }
  }

  lemma {:induction false} Decode(s: seq<byte>, left: nat) returns (ps: seq<Param>)
    requires left <= |s| && Missing(s, left) == 0
    ensures AllValid(ps) && EncodeAll(ps) == s[..left]
    decreases |s|
  {
    hide *;
    if left == 0 {
      ps := [];
      WalkNothing([], 0);
    } else {
      InsideTwo(s, left);
      WalkStep(s, 0, left);
      var n := Span(s);
      if n > left {
        MissingBelow(Skip(s), left - n);
      }
      SkipSuffix(s, 0);
      assert s[0..] == s;
      var more := Decode(s[n..], left - n);
      ps := [Param(s[0], s[2..n])] + more;
      DecodedStep(s, more, left);
    }
  }

  lemma DecodedStep(s: seq<byte>, more: seq<Param>, left: nat)
    requires 2 <= |s| && Span(s) <= left <= |s|
    requires AllValid(more) && EncodeAll(more) == s[Span(s)..][..left - Span(s)]
    ensures var ps := [Param(s[0], s[2..Span(s)])] + more; AllValid(ps) && EncodeAll(ps) == s[..left]
  {
    var n := Span(s);
    var p := Param(s[0], s[2..n]);
    assert ([p] + more)[1..] == more;
    assert Encode(p) == s[..n];
    hide EncodeAll, Encode;
    TakeConcat(s[..n], s[n..], left);
    assert s[..n] + s[n..] == s;
  }

  lemma {:induction false} MissingBelow(s: seq<byte>, left: int)
    requires left <= 0
    ensures Missing(s, left) == left
  {
  }

  ghost predicate IsEncoding(s: seq<byte>) {
    exists ps :: AllValid(ps) && EncodeAll(ps) == s
  }

  /** The walk ends where the parameters should end exactly when they are encoded parameters. */
  lemma EndsIffEncoded(s: seq<byte>, clen: nat)
    requires clen <= |s|
    ensures Missing(s, clen) == 0 <==> IsEncoding(s[..clen])
  {
    if Missing(s, clen) == 0 {
      var ps := Decode(s, clen);
    }
    if IsEncoding(s[..clen]) {
      var ps :| AllValid(ps) && EncodeAll(ps) == s[..clen];
      assert s == EncodeAll(ps) + s[clen..];
      WalkEncoded(ps, s[clen..], 0);
    }
  }

  // ---- The parser ----

  /** An octet of the message, or what happens to lie behind it. */
  method ReadOctet(buf: NetBuf, i: nat) returns (b: byte)
    requires buf.Valid()
    ensures i < buf.len ==> b == buf.Contents()[i]
  {
    if buf.data + i < buf.mem.Length {
      b := buf.mem[buf.data + i];
    } else {
      b := *;
    }
  }

  method ShowAt(buf: NetBuf, pi: byte, at: nat) returns (shown: Shown)
    requires buf.Valid()
    ensures at <= buf.len ==> shown == Show(pi, buf.Contents()[at..])
  {
    if at + Need(pi) > buf.len {
      return Unspecified;
    }
    ghost var s := buf.Contents();
    var v := buf.mem[buf.data + at..buf.data + at + Need(pi)];
    assert forall k :: 0 <= k < Need(pi) ==> v[k] == s[at + k];
    assert v == s[at..][..Need(pi)];
    if pi == DATA_RATE {
      return Rate(Signed32(FromBe32(v)));
    }
    return if v == [] then Silent else Octets(v);
  }

  /** One round of the loop, at place `n`. */
  method ParseOne(buf: NetBuf, n: nat) returns (one: Seen, next: nat)
    requires buf.Valid()
    ensures one.at == n && next >= n + 2
    ensures n + 1 < buf.len ==> one == SeenAt(buf.Contents()[n..], n) && next == n + Span(buf.Contents()[n..])
  {
    var raw := ReadOctet(buf, n);
    var pl := ReadOctet(buf, n + 1);
    var pi := Plain(raw);
    var shown := ShowAt(buf, pi, n + 2);
    one := Seen(n, pi, shown);
    next := n + pl + 2;
    if n + 1 < buf.len {
      assert buf.Contents()[n..][2..] == buf.Contents()[n + 2..];
    }
  }

  lemma SkipSuffix(s: seq<byte>, n: nat)
    requires n + 1 < |s|
    ensures var next := n + Span(s[n..]); Skip(s[n..]) == if next <= |s| then s[next..] else []
  {
  }

  /**
   Walks over `clen` octets of parameters and removes them. It ends on every message, because each
   step goes on by two octets at least.
   */
  method ParseParams(clen: byte, buf: NetBuf) returns (seen: seq<Seen>)
    requires buf.Valid()
    modifies buf`data, buf`len
    ensures buf.Valid()
    ensures buf.Contents() == if clen <= old(buf.len) then old(buf.Contents())[clen..] else old(buf.Contents())
    ensures Inside(old(buf.Contents()), clen) ==> seen == Walk(old(buf.Contents()), 0, clen)
    ensures forall i :: 0 <= i < |seen| - 1 ==> seen[i].at + 2 <= seen[i + 1].at
  {
    hide *;
    ghost var s := buf.Contents();
    ghost var inside, all, rest := Inside(s, clen), Walk(s, 0, clen), s;
    var n := 0;
    seen := [];
    while n < clen
      invariant buf.Valid() && buf.Contents() == s
      invariant inside ==> Inside(rest, clen - n) && all == seen + Walk(rest, n, clen - n)
      invariant inside ==> rest == if n <= |s| then s[n..] else []
      invariant forall i :: 0 <= i < |seen| - 1 ==> seen[i].at + 2 <= seen[i + 1].at
      invariant seen != [] ==> seen[|seen| - 1].at + 2 <= n
      decreases clen - n
    {
      var one, next := ParseOne(buf, n);
      if inside {
        InsideTwo(rest, clen - n);
        WalkStep(rest, n, clen - n);
        SkipSuffix(s, n);
        assert n + Span(rest) == next && clen - n - Span(rest) == clen - next;
        Associative(seen, [one], Walk(Skip(rest), next, clen - next));
        rest := Skip(rest);
      }
      seen := seen + [one];
      n := next;
    }
    WalkPast(rest, n, clen - n);
    var _ := buf.Pull(clen);
  }

  /** A data frame of an IrCOMM connection: a control length, parameters, payload (parse_ircomm_ttp). */
  method ParseTtp(buf: NetBuf) returns (seen: seq<Seen>)
    requires buf.Valid()
    modifies buf`data, buf`len
    ensures buf.Valid()
    ensures old(buf.len) == 0 ==> seen == [] && buf.Contents() == []
    ensures old(buf.len) > 0 ==>
              var clen, s := old(buf.Contents())[0], old(buf.Contents())[1..];
              && buf.Contents() == (if clen <= |s| then s[clen..] else s)
              && (Inside(s, clen) ==> seen == Walk(s, 0, clen))
  {
    if buf.len == 0 {
      return [];
    }
    ghost var frame := buf.Contents();
    var clen := buf.mem[buf.data];
    assert clen == frame[0];
    var _ := buf.Pull(1);
    if clen > 0 {
      seen := ParseParams(clen, buf);
    } else {
      seen := [];
    }
  }

  /**
   A frame that was put together from parameters and payload is taken apart into them again: the
   parameters are met in their places, with the values that were encoded if and only if none of them
   takes octets from what follows it, and the payload is left.
   */
  lemma FrameRoundTrip(frame: seq<byte>, ps: seq<Param>, payload: seq<byte>)
    requires AllValid(ps) && |EncodeAll(ps)| < 256
    requires frame == [|EncodeAll(ps)|] + (EncodeAll(ps) + payload)
    ensures var clen, s := frame[0], frame[1..];
            && Inside(s, clen) && s[clen..] == payload
            && Bare(Walk(s, 0, clen)) == Places(ps, 0)
            && (Walk(s, 0, clen) == Expected(ps, 0) <==> AllOwn(ps, payload))
  {
    hide EncodeAll, Walk, Expected, Inside, Met, AllOwn, Places, Bare;
    var s := EncodeAll(ps) + payload;
    DropConcat([|EncodeAll(ps)|], s, 1);
    DropConcat(EncodeAll(ps), payload, |EncodeAll(ps)|);
    WalkEncoded(ps, payload, 0);
    MetInPlace(ps, payload, 0);
    ShownAsExpectedIff(ps, payload, 0);
  }

  /** A data rate of one octet is shown as a number made of it and the parameter behind it. */
  lemma BorrowedRate()
    ensures var ps := [Param(DATA_RATE, [1]), Param(SERVICE_TYPE, [2, 3])];
            && AllValid(ps)
            && Met(ps, [], 0) == [Seen(0, DATA_RATE, Rate(0x0100_0202)), Seen(3, SERVICE_TYPE, Octets([2]))]
            && Met(ps, [], 0) != Expected(ps, 0)
  {
    var first, second := Param(DATA_RATE, [1]), Param(SERVICE_TYPE, [2, 3]);
    var ps := [first, second];
    assert ps[1..] == [second] && [second][1..] == [];
    assert Encode(second) == [0, 2, 2, 3] && EncodeAll([second]) == [0, 2, 2, 3];
    BorrowedFour();
    assert [2, 3] + (EncodeAll([]) + []) == [2, 3] && [2, 3][..1] == [2];
    assert [1] + (EncodeAll([second]) + []) == [1, 0, 2, 2, 3];
    assert Met([second], [], 3) == [Seen(3, SERVICE_TYPE, Octets([2]))] by {
      assert Show(SERVICE_TYPE, [2, 3]) == Octets([2]);
      assert Met([], [], 7) == [];
    }
    assert Met(ps, [], 0) == [Seen(0, DATA_RATE, Show(DATA_RATE, [1, 0, 2, 2, 3]))] + Met([second], [], 3);
    assert Expected(ps, 0)[0].shown == Unspecified;
  }

  lemma BorrowedFour()
    ensures Show(DATA_RATE, [1, 0, 2, 2, 3]) == Rate(0x0100_0202)
  {
    assert [1, 0, 2, 2, 3][..4] == [1, 0, 2, 2];
    assert [1, 0, 2, 2][..2] == [1, 0] && [1, 0, 2, 2][2..] == [2, 2];
  }
}
