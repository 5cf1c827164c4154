/**
 Octets and the big-endian integers that the IrDA frame formats are made of.
 */
module Bytes {

  type byte = x: int | 0 <= x < 256

  /** A 16-bit value, most significant octet first. */
  function Be16(n: int): (s: seq<byte>)
    requires 0 <= n < 0x1_0000
    ensures |s| == 2 && FromBe16(s) == n
  {
    [n / 256, n % 256]
  }

  function FromBe16(s: seq<byte>): (n: nat)
    requires |s| == 2
    ensures n < 0x1_0000
  {
    (s[0] as int) * 256 + s[1] as int
  }

  /** A 32-bit value, most significant octet first. */
  function Be32(n: int): (s: seq<byte>)
    requires 0 <= n < 0x1_0000_0000
    ensures |s| == 4 && FromBe32(s) == n
  {
    var high, low := Be16(n / 0x1_0000), Be16(n % 0x1_0000);
    assert (high + low)[..2] == high && (high + low)[2..] == low;
    high + low
  }

  function FromBe32(s: seq<byte>): (n: nat)
    requires |s| == 4
    ensures n < 0x1_0000_0000
  {
    FromBe16(s[..2]) * 0x1_0000 + FromBe16(s[2..])
  }

  /** What the octets of a number are worth. */
  lemma MostSignificantFirst(a: byte, b: byte, c: byte, d: byte)
    ensures FromBe16([a, b]) == 0x100 * a + b
    ensures FromBe32([a, b, c, d]) == 0x100_0000 * a + 0x1_0000 * b + 0x100 * c + d
    ensures Be16(0x100 * a + b) == [a, b]
    ensures Be32(0x100_0000 * a + 0x1_0000 * b + 0x100 * c + d) == [a, b, c, d]
  {
    var high, low := 0x100 * a + b, 0x100 * c + d;
    assert [a, b, c, d][..2] == [a, b] && [a, b, c, d][2..] == [c, d];
    assert Be16(high) == [a, b] && Be16(low) == [c, d];
    Halves(high, low);
    assert [a, b] + [c, d] == [a, b, c, d];
  }

  lemma Halves(high: nat, low: nat)
    requires low < 0x1_0000
    ensures (high * 0x1_0000 + low) / 0x1_0000 == high && (high * 0x1_0000 + low) % 0x1_0000 == low
  {
  }

  /** The value of a 32-bit pattern read as a C `int`. */
  function Signed32(n: int): (r: int)
    requires 0 <= n < 0x1_0000_0000
    ensures -0x8000_0000 <= r < 0x8000_0000 && (r - n) % 0x1_0000_0000 == 0
  {
    if n < 0x8000_0000 then n else n - 0x1_0000_0000
  }

  /** Up to the first zero octet, as the C library takes a string. */
  function CString(s: seq<byte>): seq<byte> {
    if s == [] || s[0] == 0 then [] else [s[0]] + CString(s[1..])
  }

  lemma {:induction false} CStringWhole(s: seq<byte>)
    ensures CString(s) == s <==> 0 !in s
  {
    if s != [] {
      CStringWhole(s[1..]);
      assert s == [s[0]] + s[1..];
    }
  }

  lemma {:induction false} CStringEnds(s: seq<byte>)
    ensures CString(s) <= s && 0 !in CString(s)
    ensures |CString(s)| < |s| ==> s[|CString(s)|] == 0
  {
    if s != [] && s[0] != 0 {
      CStringEnds(s[1..]);
    }
  }

  /** Concatenation of a list of octet strings. */
  function Flatten(parts: seq<seq<byte>>): seq<byte> {
    if parts == [] then [] else parts[0] + Flatten(parts[1..])
  }

  lemma Associative<T>(a: seq<T>, b: seq<T>, c: seq<T>)
    ensures a + (b + c) == (a + b) + c
  {
  }

  lemma TakeConcat<T>(a: seq<T>, b: seq<T>, k: nat)
    requires k <= |a| + |b|
    ensures (a + b)[..k] == if k <= |a| then a[..k] else a + b[..k - |a|]
  {
  }

  lemma DropConcat<T>(a: seq<T>, b: seq<T>, k: nat)
    requires k <= |a| + |b|
    ensures (a + b)[k..] == if k <= |a| then a[k..] + b else b[k - |a|..]
  {
  }

  lemma SliceOfSlice<T>(s: seq<T>, a: nat, b: nat, c: nat, d: nat)
    requires c <= d <= b - a && b <= |s|
    ensures s[a..b][c..d] == s[a + c..a + d]
  {
    assert forall k :: 0 <= k < d - c ==> s[a..b][c..d][k] == s[a..b][c + k] == s[a + c..a + d][k];
  }

  lemma SliceOfLeft<T>(a: seq<T>, b: seq<T>, i: nat, j: nat)
    requires i <= j <= |a|
    ensures (a + b)[i..j] == a[i..j]
  {
    assert forall k :: 0 <= k < j - i ==> (a + b)[i..j][k] == (a + b)[i + k] == a[i..j][k];
  }

  lemma SliceOfRight<T>(a: seq<T>, b: seq<T>, i: nat, j: nat)
    requires i <= j <= |b|
    ensures (a + b)[|a| + i..|a| + j] == b[i..j]
  {
    assert forall k :: 0 <= k < j - i ==> (a + b)[|a| + i..|a| + j][k] == (a + b)[|a| + i + k] == b[i..j][k];
  }

  lemma FlattenCons(a: seq<byte>, parts: seq<seq<byte>>)
    ensures Flatten([a] + parts) == a + Flatten(parts)
  {
    assert ([a] + parts)[1..] == parts;
  }

  lemma {:induction false} FlattenAppend(a: seq<seq<byte>>, b: seq<seq<byte>>)
    ensures Flatten(a + b) == Flatten(a) + Flatten(b)
  {
    if a == [] {
      assert a + b == b;
    } else {
      calc {
        Flatten(a + b);
        { assert (a + b)[0] == a[0] && (a + b)[1..] == a[1..] + b; }
        a[0] + Flatten(a[1..] + b);
        { FlattenAppend(a[1..], b); }
        a[0] + (Flatten(a[1..]) + Flatten(b));
        { Associative(a[0], Flatten(a[1..]), Flatten(b)); }
        Flatten(a) + Flatten(b);
      }
    }
  }
}
