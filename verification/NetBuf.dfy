/**
 The network buffer of irdadump (netbuf.c): one allocation of which a part, from `data` up to `tail`,
 is the message. What lies before it is room for headers, what lies behind it, up to `end`, is room
 for more data, and when either runs out the buffer moves to a larger allocation.

 All places are offsets from the start of the allocation, `mem`. Allocation always succeeds.
 */
module NetBufs {
  import opened Bytes

  class NetBuf {
    var mem: array<byte>
    var data: nat
    var tail: nat
    var end: nat
    var len: nat
    var truesize: nat

    ghost predicate Valid()
      reads this
    {
      data <= tail <= end && end == truesize == mem.Length && len == tail - data
    }

    /** The octets of the message. */
    ghost function Contents(): (s: seq<byte>)
      reads this, mem
      requires Valid()
      ensures |s| == len
    {
      mem[data..tail]
    }

    /** The front of the message is where it should be in the allocation. */
    lemma Front(n: nat)
      requires Valid() && n <= len
      ensures Contents()[..n] == mem[data..data + n]
    {
      assert forall k :: 0 <= k < n ==> Contents()[..n][k] == mem[data..tail][k] == mem[data + k];
    }

    /** A fresh buffer is an empty message (g_netbuf_new). */
    constructor (size: nat)
      ensures Valid() && fresh(mem) && truesize == size
      ensures Contents() == []
    {
      mem := new byte[size];
      truesize := size;
      data, tail, len, end := 0, 0, 0, size;
    }

    method Recycle()
      requires Valid()
      modifies this
      ensures Valid() && mem == old(mem) && truesize == old(truesize)
      ensures data == 0 && Contents() == []
    {
      data := 0;
      tail := 0;
      len := 0;
      end := truesize;
    }

    /**
     Moves the buffer to an allocation of another size, keeping every offset. This is also entered
     with `tail` beyond `end`, from `Put`, so nothing is asked of the window.
     */
    method Realloc(size: nat)
      modifies this
      ensures fresh(mem) && mem.Length == size
      ensures truesize == size && end == size
      ensures data == old(data) && tail == old(tail) && len == old(len)
      ensures forall i :: 0 <= i < size && i < old(mem.Length) ==> mem[i] == old(mem[i])
    {
      var buf := new byte[size];
      forall i | 0 <= i < size && i < mem.Length {
        buf[i] := mem[i];
      }
      mem := buf;
      truesize := size;
      end := size;
    }

    /** Extends the message at its end by `n` octets; `tmp` is the offset of the first of them. */
    method Put(n: nat) returns (tmp: nat)
      requires Valid()
      modifies this
      ensures Valid() && data == old(data) && len == old(len) + n && tmp == old(tail)
      ensures forall j :: 0 <= j < old(tail) ==> mem[j] == old(mem[j])
      ensures n <= old(Tailroom()) ==> mem == old(mem) && truesize == old(truesize)
      ensures n > old(Tailroom()) ==> fresh(mem) && truesize == old(truesize) + n
    {
      tmp := tail;
      tail := tail + n;
      len := len + n;
      if tail > end {
        Realloc(truesize + n);
        tmp := tail - n;
      }
    }

    method PutData(bytes: seq<byte>) returns (tmp: nat)
      requires Valid()
      modifies this, mem
      ensures Valid() && tmp == old(tail) && (mem == old(mem) || fresh(mem))
      ensures Contents() == old(Contents()) + bytes
    {
      tmp := Put(|bytes|);
      forall j | tmp <= j < tmp + |bytes| {
        mem[j] := bytes[j - tmp];
      }
      Splice(data, tmp, old(Contents()), bytes);
    }

    /** Extends the message at its front by `n` octets, moving it up when the headroom is too small. */
    method Push(n: nat) returns (tmp: nat)
      requires Valid()
      modifies this, mem
      ensures Valid() && tmp == data && len == old(len) + n && (mem == old(mem) || fresh(mem))
      ensures forall j :: data + n <= j < tail ==> mem[j] == old(Contents())[j - (data + n)]
      ensures n <= old(Headroom()) ==> data == old(data) - n && tail == old(tail) && truesize == old(truesize)
      ensures n > old(Headroom()) ==> data == old(data) && tail == old(tail) + n && truesize == old(truesize) + n
    {
      if data - n < 0 {
        Realloc(truesize + n);
        forall j | data + n <= j < data + n + len {
          mem[j] := mem[j - n];
        }
        data := data + n;
        tail := tail + n;
      }
      data := data - n;
      len := len + n;
      return data;
    }

    method PrependHdr(hdr: seq<byte>) returns (tmp: nat)
      requires Valid()
      modifies this, mem
      ensures Valid() && tmp == data && (mem == old(mem) || fresh(mem))
      ensures Contents() == hdr + old(Contents())
    {
      tmp := Push(|hdr|);
      forall j | tmp <= j < tmp + |hdr| {
        mem[j] := hdr[j - tmp];
      }
      Splice(tmp, tmp + |hdr|, hdr, old(Contents()));
    }

    /** Two runs of octets that are next to each other make up the message. */
    lemma Splice(lo: nat, mid: nat, left: seq<byte>, right: seq<byte>)
      requires Valid() && lo == data && mid == lo + |left| && mid + |right| == tail
      requires forall j :: lo <= j < mid ==> mem[j] == left[j - lo]
      requires forall j :: mid <= j < tail ==> mem[j] == right[j - mid]
      ensures Contents() == left + right
    {
    }

    /** Drops `n` octets from the front; fails, and changes nothing, when there are fewer. */
    method Pull(n: nat) returns (ok: bool)
      requires Valid()
      modifies this`data, this`len
      ensures Valid()
      ensures ok == (n <= old(len))
      ensures Contents() == if ok then old(Contents())[n..] else old(Contents())
      ensures data == if ok then old(data) + n else old(data)
    {
      if n > len {
        return false;
      }
      len := len - n;
      data := data + n;
      return true;
    }

    /**
     Moves the window up. There is no bound check: it stays inside the allocation if and only if
     there is enough room behind it.
     */
    method Reserve(n: nat)
      requires Valid()
      modifies this`data, this`tail
      ensures data == old(data) + n && tail == old(tail) + n
      ensures Valid() <==> n <= old(Tailroom())
      ensures Valid() ==> Contents() == mem[old(data) + n..old(tail) + n]
    {
      data := data + n;
      tail := tail + n;
    }

    /** How much can be put in front of the message in this allocation. */
    function Headroom(): (r: nat)
      reads this
      ensures Valid() ==> r == tail - len
    {
      data
    }

    /** How much can be put behind the message in this allocation. */
    function Tailroom(): (r: int)
      reads this
      ensures Valid() ==> r >= 0 && Headroom() + len + r == truesize
    {
      end - tail
    }

    method Trim(n: nat)
      requires Valid()
      modifies this`len, this`tail
      ensures Valid()
      ensures Contents() == if old(len) > n then old(Contents())[..n] else old(Contents())
    {
      if len > n {
        len := n;
        tail := data + n;
      }
    }

    /** One call, whichever it is; `pulled` holds its answer when it is a pull. */
    method Apply(op: Op) returns (pulled: seq<bool>)
      requires Valid()
      modifies this, mem
      ensures Valid() && (mem == old(mem) || fresh(mem))
      ensures Contents() == Ideal(old(Contents()), op)
      ensures pulled == PullResult(old(Contents()), op)
    {
      pulled := [];
      match op
      case PutData(bytes) => var _ := PutData(bytes);
      case PrependHdr(hdr) => var _ := PrependHdr(hdr);
      case Pull(n) =>
        var ok := Pull(n);
        pulled := [ok];
      case Trim(n) => Trim(n);
      case Recycle => Recycle();
    }

    /** Any sequence of calls leaves the octets that the same calls leave on a plain sequence. */
    method Run(ops: seq<Op>) returns (pulled: seq<bool>)
      requires Valid()
      modifies this, mem
      ensures Valid() && (mem == old(mem) || fresh(mem))
      ensures Contents() == IdealRun(old(Contents()), ops)
      ensures pulled == PullResults(old(Contents()), ops)
    {
      pulled := [];
      assert ops[0..] == ops;
      ghost var start := Contents();
      for k := 0 to |ops|
        invariant Valid() && (mem == old(mem) || fresh(mem))
        invariant IdealRun(start, ops) == IdealRun(Contents(), ops[k..])
        invariant PullResults(start, ops) == pulled + PullResults(Contents(), ops[k..])
      {
        assert ops[k..][0] == ops[k] && ops[k..][1..] == ops[k + 1..];
        var r := Apply(ops[k]);
        pulled := pulled + r;
      }
    }
  }

  datatype Op =
    | PutData(bytes: seq<byte>)
    | PrependHdr(hdr: seq<byte>)
    | Pull(n: nat)
    | Trim(n: nat)
    | Recycle

  /** What a call does to a message that is nothing but its octets. */
  function Ideal(s: seq<byte>, op: Op): seq<byte> {
    match op
    case PutData(bytes) => s + bytes
    case PrependHdr(hdr) => hdr + s
    case Pull(n) => if n <= |s| then s[n..] else s
    case Trim(n) => if n < |s| then s[..n] else s
    case Recycle => []
  }

  /** What each call leaves of a message of four octets. */
  lemma IdealOnOctets(a: byte, b: byte, c: byte, d: byte, n: nat)
    ensures Ideal([a, b], PutData([c, d])) == [a, b, c, d] && Ideal([c, d], PrependHdr([a, b])) == [a, b, c, d]
    ensures Ideal([a, b, c, d], Pull(1)) == [b, c, d] && Ideal([a, b, c, d], Trim(1)) == [a]
    ensures n >= 4 ==> Ideal([a, b, c, d], Trim(n)) == [a, b, c, d]
    ensures n > 4 ==> Ideal([a, b, c, d], Pull(n)) == [a, b, c, d]
    ensures Ideal([a, b, c, d], Recycle) == []
    ensures PullResult([a, b, c, d], Pull(n)) == [n <= 4]
  {
  }

  function IdealRun(s: seq<byte>, ops: seq<Op>): seq<byte>
    decreases |ops|
  {
    if ops == [] then s else IdealRun(Ideal(s, ops[0]), ops[1..])
  }

  function PullResult(s: seq<byte>, op: Op): seq<bool> {
    if op.Pull? then [op.n <= |s|] else []
  }

  function PullResults(s: seq<byte>, ops: seq<Op>): seq<bool>
    decreases |ops|
  {
    if ops == [] then [] else PullResult(s, ops[0]) + PullResults(Ideal(s, ops[0]), ops[1..])
  }

  lemma {:induction false} IdealRunAppend(s: seq<byte>, a: seq<Op>, b: seq<Op>)
    ensures IdealRun(s, a + b) == IdealRun(IdealRun(s, a), b)
    decreases |a|
  {
    if a == [] {
      assert a + b == b;
    } else {
      assert (a + b)[1..] == a[1..] + b;
      IdealRunAppend(Ideal(s, a[0]), a[1..], b);
    }
  }

  /** Calls that wrap a payload in headers, innermost first, and calls that take them off again. */
  function Wrap(hdrs: seq<seq<byte>>): seq<Op> {
    seq(|hdrs|, i requires 0 <= i < |hdrs| => PrependHdr(hdrs[i]))
  }

  function Unwrap(hdrs: seq<seq<byte>>): seq<Op> {
    seq(|hdrs|, i requires 0 <= i < |hdrs| => Pull(|hdrs[|hdrs| - 1 - i]|))
  }

  /** Pulling the headers of a protocol stack off again gives back the payload. */
  lemma {:induction false} UnwrapWrapped(payload: seq<byte>, hdrs: seq<seq<byte>>)
    ensures IdealRun(payload, Wrap(hdrs) + Unwrap(hdrs)) == payload
    decreases |hdrs|
  {
    if hdrs == [] {
      assert Wrap(hdrs) + Unwrap(hdrs) == [];
    } else {
      var h, rest := hdrs[0], hdrs[1..];
      var inner := Wrap(rest) + Unwrap(rest);
      assert Wrap(hdrs) + Unwrap(hdrs) == ([PrependHdr(h)] + inner) + [Pull(|h|)];
      IdealRunAppend(payload, [PrependHdr(h)] + inner, [Pull(|h|)]);
      IdealRunAppend(payload, [PrependHdr(h)], inner);
      assert IdealRun(payload, [PrependHdr(h)]) == h + payload;
      UnwrapWrapped(h + payload, rest);
      assert IdealRun(h + payload, [Pull(|h|)]) == payload;
    }
  }
}
