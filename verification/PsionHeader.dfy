/**
 The request that opens a Psion 5 transfer (irpsion5.c): one line of text, printed with sprintf by
 the sender and taken apart with sscanf by the receiver.

     FILE <size> <mode> <upper half of the date> <lower half of the date> <name>
 */
module PsionHeader {
  import opened Bytes

  type Text = seq<byte>

  const SPACE: byte := 32
  const MINUS: byte := 45
  const PLUS: byte := 43
  const ZERO: byte := 48
  const FILE: Text := [70, 73, 76, 69]
  const DATA: Text := [68, 65, 84, 65]

  const UINT: nat := 0x1_0000_0000

  predicate IsSpace(c: byte) { c == 32 || 9 <= c <= 13 }

  predicate IsDigit(c: byte) { 48 <= c <= 57 }

  // ---- Printing ----

  function Digit(d: nat): byte
    requires d < 10
  {
    ZERO + d
  }

  /** `%u` and `%lu`. */
  function Decimal(n: nat): (s: Text) {
    if n < 10 then [Digit(n)] else Decimal(n / 10) + [Digit(n % 10)]
  }

  /** `%d`. */
  function PrintInt(n: int): Text {
    if n < 0 then [MINUS] + Decimal(-n) else Decimal(n)
  }

  /** The numbers of a request, each with a space in front. */
  function Join(numbers: seq<int>): Text {
    if numbers == [] then [] else [SPACE] + (PrintInt(numbers[0]) + Join(numbers[1..]))
  }

  /** The size goes through a C `int`, and comes out negative from 2 GB on. */
  function Numbers(size: nat, mode: nat, hi: nat, lo: nat): seq<int> {
    [Signed32(size % UINT), mode, hi, lo]
  }

  function PrintFile(size: nat, mode: nat, hi: nat, lo: nat, name: Text): Text {
    Lead(size, mode, hi, lo) + name
  }

  /** All of a request but the name. */
  function Lead(size: nat, mode: nat, hi: nat, lo: nat): Text {
    FILE + Join(Numbers(size, mode, hi, lo)) + [SPACE]
  }

  // ---- Scanning ----

  datatype Option<T> = None | Some(value: T)

  /** The largest value of an `unsigned long`, whichever its width is. */
  datatype Long = Long32 | Long64
  {
    function Max(): nat {
      match this
      case Long32 => 0xffff_ffff
      case Long64 => 0xffff_ffff_ffff_ffff
    }
  }

  function DropSpace(s: Text): (r: Text)
    ensures |r| <= |s|
  {
    if s != [] && IsSpace(s[0]) then DropSpace(s[1..]) else s
  }

  function DigitSpan(s: Text): (n: nat)
    ensures n <= |s|
  {
    if s != [] && IsDigit(s[0]) then 1 + DigitSpan(s[1..]) else 0
  }

  function Value(digits: Text): nat {
    if digits == [] then 0
    else
      var d: int := digits[|digits| - 1];
      Value(digits[..|digits| - 1]) * 10 + if d < 48 then 0 else d - 48
  }

  /** strtoul, then the conversion to `unsigned int`. */
  function ToUnsigned(long: Long, negative: bool, value: nat): nat {
    var v := if value > long.Max() then long.Max() else value;
    (if negative && value <= long.Max() then long.Max() + 1 - v else v) % UINT
  }

  /** `%u` after optional white space: the number and what follows it. */
  function ScanNumber(long: Long, s: Text): Option<(nat, Text)> {
    var t := DropSpace(s);
    var signed := t != [] && (t[0] == MINUS || t[0] == PLUS);
    var u := if signed then t[1..] else t;
    var n := DigitSpan(u);
    if n == 0 then None else Some((ToUnsigned(long, signed && t[0] == MINUS, Value(u[..n])), u[n..]))
  }

  function ScanNumbers(long: Long, s: Text, count: nat): Option<(seq<nat>, Text)>
    decreases count
  {
    if count == 0 then Some(([], s))
    else
      match ScanNumber(long, s)
      case None => None
      case Some((n, rest)) =>
        match ScanNumbers(long, rest, count - 1)
        case None => None
        case Some((more, end)) => Some(([n] + more, end))
  }

  datatype Request =
    | FileRequest(size: nat, mode: nat, hi: nat, lo: nat, name: Text)
    | DataRequest(size: nat)
    | BadRequest

  /** strncmp with the length of `word`. */
  predicate StartsWith(buf: Text, word: Text) {
    |word| <= |buf| && buf[..|word|] == word
  }

  /** What the receiver makes of the first octets it reads (handle_client). */
  function ScanRequest(long: Long, buf: Text): Request {
    if StartsWith(buf, FILE + [SPACE]) then
      match ScanNumbers(long, buf[4..], 4)
      case None => BadRequest
      case Some((ns, rest)) =>
        if |ns| == 4 then FileRequest(ns[0], ns[1], ns[2], ns[3], DropSpace(rest)) else BadRequest
    else if StartsWith(buf, DATA + [SPACE]) then
      match ScanNumber(long, buf[4..])
      case None => BadRequest
      case Some((n, _)) => DataRequest(n)
    else BadRequest
  }

  // ---- Printing and scanning one number ----

  predicate AllDigits(s: Text) {
    forall k :: 0 <= k < |s| ==> IsDigit(s[k])
  }

  lemma {:induction false} DecimalIsDigits(n: nat)
    ensures Decimal(n) != [] && AllDigits(Decimal(n))
    ensures Value(Decimal(n)) == n
    decreases n
  {
    if n >= 10 {
      DecimalIsDigits(n / 10);
      assert Decimal(n)[..|Decimal(n)| - 1] == Decimal(n / 10);
    } else {
      assert Decimal(n)[..0] == [];
    }
  }

  /** The number that decimal digits stand for, and the characters that they are written with. */
  function Number(digits: seq<nat>): nat {
    if digits == [] then 0 else 10 * Number(digits[..|digits| - 1]) + digits[|digits| - 1]
  }

  function Ascii(digits: seq<nat>): seq<int> {
    if digits == [] then [] else Ascii(digits[..|digits| - 1]) + [0x30 + digits[|digits| - 1]]
  }

  /** Numbers are printed in decimal, without leading zeros. */
  lemma {:induction false} PrintedInDecimal(digits: seq<nat>)
    requires digits != [] && digits[0] > 0 && forall k :: 0 <= k < |digits| ==> digits[k] < 10
    ensures Number(digits) > 0 && Decimal(Number(digits)) == Ascii(digits)
    decreases |digits|
  {
    var init, last := digits[..|digits| - 1], digits[|digits| - 1];
    if init != [] {
      PrintedInDecimal(init);
      assert Number(digits) / 10 == Number(init) && Number(digits) % 10 == last;
    } else {
      assert Number([]) == 0 && Ascii([]) == [];
    }
  }

  predicate NoDigit(s: Text) { s == [] || !IsDigit(s[0]) }

  lemma {:induction false} DigitSpanOf(digits: Text, rest: Text)
    requires AllDigits(digits)
    requires NoDigit(rest)
    ensures DigitSpan(digits + rest) == |digits|
    decreases |digits|
  {
    if digits == [] {
      assert digits + rest == rest;
    } else {
      assert (digits + rest)[1..] == digits[1..] + rest;
      DigitSpanOf(digits[1..], rest);
    }
  }

  /** Whatever the width of a `long`, what is left of a number is its value modulo 2^32. */
  lemma ToUnsignedOf(long: Long, n: int)
    requires -0x8000_0000 <= n < UINT
    ensures ToUnsigned(long, n < 0, if n < 0 then -n else n) == (n + UINT) % UINT
  {
  }

  lemma ScanDigits(long: Long, negative: bool, v: nat, t: Text, rest: Text)
    requires NoDigit(rest)
    requires t == if negative then [MINUS] + (Decimal(v) + rest) else Decimal(v) + rest
    ensures ScanNumber(long, [SPACE] + t) == Some((ToUnsigned(long, negative, v), rest))
  {
    DecimalIsDigits(v);
    DigitSpanOf(Decimal(v), rest);
    hide Decimal, Value, DigitSpan, ToUnsigned;
    var u := Decimal(v) + rest;
    assert u[0] == Decimal(v)[0];
    assert ([SPACE] + t)[1..] == t;
    assert DropSpace([SPACE] + t) == DropSpace(t) == t;
    assert negative ==> t[1..] == u;
    assert u[..|Decimal(v)|] == Decimal(v) && u[|Decimal(v)|..] == rest;
  }

  /** A number comes back from its decimal form modulo 2^32, and so does a negative one. */
  lemma ScanPrinted(long: Long, n: int, rest: Text)
    requires -0x8000_0000 <= n < UINT && NoDigit(rest)
    ensures ScanNumber(long, [SPACE] + (PrintInt(n) + rest)) == Some(((n + UINT) % UINT, rest))
  {
    var v := if n < 0 then -n else n;
    assert n < 0 ==> PrintInt(n) + rest == [MINUS] + (Decimal(v) + rest);
    ScanDigits(long, n < 0, v, PrintInt(n) + rest, rest);
    ToUnsignedOf(long, n);
  }

  // ---- The whole request ----

  predicate Printable(numbers: seq<int>) {
    forall k :: 0 <= k < |numbers| ==> -0x8000_0000 <= numbers[k] < UINT
  }

  function Wrapped(numbers: seq<int>): (r: seq<nat>)
    requires Printable(numbers)
    ensures |r| == |numbers|
  {
    if numbers == [] then [] else [(numbers[0] + UINT) % UINT] + Wrapped(numbers[1..])
  }

  lemma JoinOne(numbers: seq<int>, rest: Text)
    requires numbers != [] && NoDigit(rest)
    ensures var tail := Join(numbers[1..]) + rest;
            Join(numbers) + rest == [SPACE] + (PrintInt(numbers[0]) + tail) && NoDigit(tail)
  {
    var tail := Join(numbers[1..]) + rest;
    Associative([SPACE], PrintInt(numbers[0]) + Join(numbers[1..]), rest);
    Associative(PrintInt(numbers[0]), Join(numbers[1..]), rest);
    if numbers[1..] == [] {
      assert tail == rest;
    } else {
      assert tail[0] == Join(numbers[1..])[0] == SPACE;
    }
  }

  lemma ScanOneMore(long: Long, s: Text, n: nat, tail: Text, ns: seq<nat>, end: Text)
    requires ScanNumber(long, s) == Some((n, tail))
    requires ScanNumbers(long, tail, |ns|) == Some((ns, end))
    ensures ScanNumbers(long, s, |ns| + 1) == Some(([n] + ns, end))
  {
  }

  lemma ScanZero(long: Long, rest: Text)
    ensures ScanNumbers(long, Join([]) + rest, 0) == Some((Wrapped([]), rest))
  {
    assert Join([]) + rest == rest;
  }

  lemma WrappedOne(numbers: seq<int>)
    requires Printable(numbers) && numbers != []
    ensures Printable(numbers[1..]) && -0x8000_0000 <= numbers[0] < UINT
    ensures Wrapped(numbers) == [(numbers[0] + UINT) % UINT] + Wrapped(numbers[1..])
  {
  }

  lemma {:induction false} ScanJoined(long: Long, numbers: seq<int>, rest: Text)
    requires Printable(numbers) && NoDigit(rest)
    ensures ScanNumbers(long, Join(numbers) + rest, |numbers|) == Some((Wrapped(numbers), rest))
    decreases |numbers|
  {
    hide *;
    if numbers == [] {
      ScanZero(long, rest);
    } else {
      var n, more := numbers[0], numbers[1..];
      WrappedOne(numbers);
      JoinOne(numbers, rest);
      ScanPrinted(long, n, Join(more) + rest);
      ScanJoined(long, more, rest);
      ScanOneMore(long, Join(numbers) + rest, Wrapped(numbers)[0], Join(more) + rest, Wrapped(more), rest);
    }
  }

  lemma Printed(size: nat, mode: nat, hi: nat, lo: nat, name: Text)
    ensures StartsWith(PrintFile(size, mode, hi, lo, name), FILE + [SPACE])
    ensures PrintFile(size, mode, hi, lo, name)[4..] == Join(Numbers(size, mode, hi, lo)) + ([SPACE] + name)
  {
    var numbers := Numbers(size, mode, hi, lo);
    assert Join(numbers)[0] == SPACE;
    var tail := Join(numbers) + ([SPACE] + name);
    assert PrintFile(size, mode, hi, lo, name) == FILE + tail;
  }

  lemma NumbersWrapped(size: nat, mode: nat, hi: nat, lo: nat)
    requires mode < UINT && hi < UINT && lo < UINT
    ensures Printable(Numbers(size, mode, hi, lo))
    ensures Wrapped(Numbers(size, mode, hi, lo)) == [size % UINT, mode, hi, lo]
  {
    var ns := Numbers(size, mode, hi, lo);
    assert ns[1..] == [mode, hi, lo] && ns[2..] == [hi, lo] && ns[3..] == [lo];
    assert Wrapped([lo]) == [lo];
    assert [hi, lo][1..] == [lo] && Wrapped([hi, lo]) == [hi, lo];
    assert [mode, hi, lo][1..] == [hi, lo] && Wrapped([mode, hi, lo]) == [mode, hi, lo];
  }

  /**
   The request that was printed comes back: the size modulo 2^32, the other numbers as they were,
   and the name without the white space it may begin with.
   */
  lemma ScanPrintedFile(long: Long, size: nat, mode: nat, hi: nat, lo: nat, name: Text)
    requires mode < UINT && hi < UINT && lo < UINT
    ensures ScanRequest(long, PrintFile(size, mode, hi, lo, name)) ==
            FileRequest(size % UINT, mode, hi, lo, DropSpace(name))
  {
    Printed(size, mode, hi, lo, name);
    NumbersWrapped(size, mode, hi, lo);
    ScanJoined(long, Numbers(size, mode, hi, lo), [SPACE] + name);
    assert ([SPACE] + name)[1..] == name;
    assert DropSpace([SPACE] + name) == DropSpace(name);
    hide PrintFile, Join, ScanNumbers, StartsWith, DropSpace, Wrapped;
  }

  /** The name survives exactly when it does not begin with white space. */
  lemma {:induction false} NameSurvives(name: Text)
    ensures DropSpace(name) == name <==> name == [] || !IsSpace(name[0])
  {
  }

  /** A file is announced exactly as it is if and only if it is below 4 GB and has an ordinary name. */
  lemma ScanOrdinaryFile(long: Long, size: nat, mode: nat, hi: nat, lo: nat, name: Text)
    requires mode < UINT && hi < UINT && lo < UINT
    ensures ScanRequest(long, PrintFile(size, mode, hi, lo, name)) == FileRequest(size, mode, hi, lo, name) <==>
            size < UINT && (name == [] || !IsSpace(name[0]))
  {
    hide PrintFile, ScanRequest;
    ScanPrintedFile(long, size, mode, hi, lo, name);
    NameSurvives(name);
  }

  /** Without the last octets of its name, a request announces a file with the name that is left. */
  lemma CutName(long: Long, size: nat, mode: nat, hi: nat, lo: nat, name: Text, cut: nat)
    requires size < UINT && mode < UINT && hi < UINT && lo < UINT
    requires cut < |name| && !IsSpace(name[0])
    ensures var whole, part := PrintFile(size, mode, hi, lo, name), name[..|name| - cut];
            && cut < |whole| && whole[|whole| - cut..] == name[|name| - cut..]
            && ScanRequest(long, whole[..|whole| - cut]) == FileRequest(size, mode, hi, lo, part)
  {
    hide ScanRequest, Lead, IsSpace;
    var lead, part := Lead(size, mode, hi, lo), name[..|name| - cut];
    assert part[0] == name[0];
    ScanOrdinaryFile(long, size, mode, hi, lo, part);
    TakeConcat(lead, name, |lead| + |part|);
    DropConcat(lead, name, |lead| + |part|);
  }

  // ---- The length of a request ----

  function Power10(d: nat): nat { if d == 0 then 1 else 10 * Power10(d - 1) }

  lemma {:induction false} DecimalLength(n: nat, d: nat)
    requires d > 0
    ensures |Decimal(n)| <= d <==> n < Power10(d)
    decreases d
  {
    if d == 1 {
      assert Power10(1) == 10 * Power10(0) == 10;
      assert |Decimal(n)| <= 1 <==> n < 10 by {
        if n >= 10 { DecimalIsDigits(n / 10); }
      }
    } else if n < 10 {
      PowerGrows(d);
    } else {
      DecimalLength(n / 10, d - 1);
      TenTimes(n, Power10(d - 1));
    }
  }

  lemma {:induction false} PowerGrows(d: nat)
    requires d > 0
    ensures Power10(d) >= 10
  {
    if d > 1 { PowerGrows(d - 1); }
  }

  lemma TenTimes(n: nat, p: nat)
    ensures n / 10 < p <==> n < 10 * p
  {
  }

  lemma PrintedLength(n: int)
    requires -0x8000_0000 <= n < UINT
    ensures |PrintInt(n)| <= 11
  {
    assert Power10(10) == 10_000_000_000 by {
      assert Power10(5) == 100_000;
    }
    DecimalLength(if n < 0 then -n else n, 10);
  }

  lemma {:induction false} JoinedLength(numbers: seq<int>)
    requires Printable(numbers)
    ensures |Join(numbers)| <= 12 * |numbers|
  {
    if numbers != [] {
      PrintedLength(numbers[0]);
      JoinedLength(numbers[1..]);
    }
  }

  /** All of a request but its name takes at most 53 octets. */
  lemma FileLength(size: nat, mode: nat, hi: nat, lo: nat, name: Text)
    requires mode < UINT && hi < UINT && lo < UINT
    ensures |PrintFile(size, mode, hi, lo, name)| <= 53 + |name|
  {
    NumbersWrapped(size, mode, hi, lo);
    JoinedLength(Numbers(size, mode, hi, lo));
    hide Join, Numbers;
  }

  // ---- Requests, as they arrive ----

  /** FILE 55175 32 14689800 2691219200 Data */
  const SAMPLE: Text :=
    [70, 73, 76, 69] +
    ([32] + ([53, 53, 49, 55, 53] +
    ([32] + ([51, 50] +
    ([32] + ([49, 52, 54, 56, 57, 56, 48, 48] +
    ([32] + ([50, 54, 57, 49, 50, 49, 57, 50, 48, 48] + [])))))))) +
    [32] + [68, 97, 116, 97]

  lemma SampleSize()
    ensures Decimal(55175) == [53, 53, 49, 55, 53] && Decimal(32) == [51, 50]
  {
    assert Decimal(551) == [53, 53, 49];
  }

  lemma SampleHigh()
    ensures Decimal(14689800) == [49, 52, 54, 56, 57, 56, 48, 48]
  {
    assert Decimal(1468) == [49, 52, 54, 56];
    assert Decimal(146898) == [49, 52, 54, 56, 57, 56];
  }

  lemma SampleLow()
    ensures Decimal(2691219200) == [50, 54, 57, 49, 50, 49, 57, 50, 48, 48]
  {
    assert Decimal(2691) == [50, 54, 57, 49];
    assert Decimal(269121) == [50, 54, 57, 49, 50, 49];
    assert Decimal(26912192) == [50, 54, 57, 49, 50, 49, 57, 50];
  }

  /** The order of its parts, in octets: size, mode, upper and lower half of the date, and the name. */
  lemma SampleRequest(long: Long)
    ensures PrintFile(55175, 32, 14689800, 2691219200, [68, 97, 116, 97]) == SAMPLE
    ensures ScanRequest(long, SAMPLE) == FileRequest(55175, 32, 14689800, 2691219200, [68, 97, 116, 97])
    ensures SentDate(923950076) == 14689800 * 0x1_0000_0000 + 2691219200
  {
    ScanOrdinaryFile(long, 55175, 32, 14689800, 2691219200, [68, 97, 116, 97]);
    hide Decimal, ScanRequest, Join, SentDate;
    SampleSize();
    SampleHigh();
    SampleLow();
    SampleDate();
    JoinFour(55175, 32, 14689800, 2691219200);
    assert Numbers(55175, 32, 14689800, 2691219200) == [55175, 32, 14689800, 2691219200];
  }

  lemma SampleDate()
    ensures SentDate(923950076) == 14689800 * 0x1_0000_0000 + 2691219200
  {
  }

  lemma JoinFour(a: nat, b: nat, c: nat, d: nat)
    ensures Join([a, b, c, d]) ==
            [SPACE] + (Decimal(a) + ([SPACE] + (Decimal(b) + ([SPACE] + (Decimal(c) + ([SPACE] + (Decimal(d) + [])))))))
  {
    hide Decimal, Join;
    JoinNext(a, [b, c, d]);
    JoinNext(b, [c, d]);
    JoinNext(c, [d]);
    JoinNext(d, []);
    assert [a] + [b, c, d] == [a, b, c, d] && [b] + [c, d] == [b, c, d] && [c] + [d] == [c, d] && [d] + [] == [d];
  }

  lemma JoinNext(n: nat, numbers: seq<int>)
    ensures Join([n] + numbers) == [SPACE] + (Decimal(n) + Join(numbers)) && Join([]) == []
  {
    hide Decimal;
    assert ([n] + numbers)[1..] == numbers;
  }

  /** Only what begins with "FILE " announces a file, and only what begins with "DATA ", as in "DATA 185", data. */
  lemma RequestsInOctets(long: Long, buf: Text)
    ensures ScanRequest(long, buf).FileRequest? ==> |buf| >= 5 && buf[..5] == [70, 73, 76, 69, 32]
    ensures ScanRequest(long, buf).DataRequest? ==> |buf| >= 5 && buf[..5] == [68, 65, 84, 65, 32]
    ensures ScanRequest(long, [68, 65, 84, 65, 32, 49, 56, 53]) == DataRequest(185)
  {
    hide ScanNumbers, ScanNumber;
    var sample: Text := [68, 65, 84, 65, 32, 49, 56, 53];
    assert sample[..5] == [68, 65, 84, 65, 32] && sample[..5][0] != 70 && sample[4..] == [SPACE] + ([49, 56, 53] + []);
    SampleData();
    assert PrintInt(185) == [49, 56, 53];
    ScanPrinted(long, 185, []);
  }

  lemma SampleData()
    ensures Decimal(185) == [49, 56, 53]
  {
    assert Decimal(18) == [49, 56];
  }

  /** White space, as the C library knows it. */
  lemma SpacesInOctets(c: byte)
    ensures IsSpace(c) <==> c in {9, 10, 11, 12, 13, 32}
    ensures IsDigit(c) <==> c in {48, 49, 50, 51, 52, 53, 54, 55, 56, 57}
    ensures PrintInt(-7) == [45, 55]
  {
  }

  /** A number that does not fit its type is the largest one; a sign is taken off 2^32 or ignored. */
  lemma LimitsInNumbers(value: nat)
    ensures ToUnsigned(Long32, false, value) == if value > 0xffff_ffff then 0xffff_ffff else value
    ensures ToUnsigned(Long64, false, value) ==
            if value > 0xffff_ffff_ffff_ffff then 0xffff_ffff else value % 0x1_0000_0000
    ensures ToUnsigned(Long32, true, value) ==
            if value > 0xffff_ffff then 0xffff_ffff else (0x1_0000_0000 - value) % 0x1_0000_0000
  {
  }

  /** A plus sign is no part of a number. */
  lemma PlusIsScanned(long: Long)
    ensures ScanNumber(long, [32, 43, 55]) == Some((7, []))
  {
    assert [32, 43, 55][1..] == [43, 55] && [43, 55][1..] == [55] && [55][1..] == [];
    assert [55][..1] == [55] && [55][..0] == [];
  }

  /** The date in microseconds, in numbers. */
  lemma DateInNumbers(mtime: int, hi: nat, lo: nat)
    ensures SentDate(mtime) == 62168263200000000 + 1000000 * (mtime % 0x1_0000_0000)
    ensures var date := hi * 0x1_0000_0000 + lo - 62168263200000000;
            0 <= date < 0x1_0000_0000_0000_0000 ==> ReceivedDate(hi, lo) == date / 1000000 % 0x1_0000_0000
    ensures ReceivedDate(0, 0) == (0x1_0000_0000_0000_0000 - 62168263200000000) / 1000000 % 0x1_0000_0000
  {
    DateSurvives(mtime);
  }

  // ---- A request that arrives in pieces ----

  predicate Numeral(t: Text) {
    t != [] && (AllDigits(t) || (t[0] == MINUS && AllDigits(t[1..])))
  }

  lemma DigitsPrefix(s: Text, k: nat)
    requires AllDigits(s) && k <= |s|
    ensures AllDigits(s[..k])
  {
  }

  lemma PrintedNumeral(n: int, k: nat)
    requires 0 < k <= |PrintInt(n)|
    ensures Numeral(PrintInt(n)[..k])
  {
    var digits := Decimal(if n < 0 then -n else n);
    DecimalIsDigits(if n < 0 then -n else n);
    hide Decimal, Value, AllDigits;
    if n < 0 {
      TakeConcat([MINUS], digits, k);
      DigitsPrefix(digits, k - 1);
      if k > 1 {
        DropConcat([MINUS], digits[..k - 1], 1);
      }
    } else {
      DigitsPrefix(digits, k);
    }
  }

  /** A lone numeral, even a truncated one, is consumed whole or not at all. */
  lemma ScanNumeral(long: Long, t: Text)
    requires Numeral(t)
    ensures ScanNumber(long, [SPACE] + t).Some? ==> ScanNumber(long, [SPACE] + t).value.1 == []
  {
    assert ([SPACE] + t)[1..] == t;
    assert DropSpace([SPACE] + t) == t;
    var u := if t[0] == MINUS then t[1..] else t;
    DigitSpanOf(u, []);
    assert u + [] == u;
    assert u[|u|..] == [];
  }

  lemma CutNumber(long: Long, n: int, k: nat)
    requires k <= 1 + |PrintInt(n)|
    ensures var s := ([SPACE] + PrintInt(n))[..k];
            ScanNumber(long, s).Some? ==> ScanNumber(long, s).value.1 == []
  {
    var s := ([SPACE] + PrintInt(n))[..k];
    if k >= 2 {
      PrintedNumeral(n, k - 1);
      hide PrintInt, ScanNumber, Numeral;
      ScanNumeral(long, PrintInt(n)[..k - 1]);
      assert s == [SPACE] + PrintInt(n)[..k - 1];
    } else if k == 1 {
      hide PrintInt;
      assert s == [SPACE] && s[1..] == [];
    }
  }

  /** Nothing but white space is left over after `count` numbers, if there are that many. */
  predicate Consumes(long: Long, s: Text, count: nat) {
    var r := ScanNumbers(long, s, count);
    r.Some? ==> DropSpace(r.value.1) == []
  }

  lemma CutInside(long: Long, n: int, k: nat, count: nat)
    requires k <= 1 + |PrintInt(n)|
    ensures Consumes(long, ([SPACE] + PrintInt(n))[..k], count + 1)
  {
    var s := ([SPACE] + PrintInt(n))[..k];
    CutNumber(long, n, k);
    ScanNothing(long, count);
    hide PrintInt, ScanNumber, ScanNumbers;
    if ScanNumber(long, s).Some? {
      ScanMore(long, s, [], count);
    } else {
      ScanNone(long, s, count);
    }
  }

  lemma CutBehind(long: Long, n: int, tail: Text, count: nat)
    requires -0x8000_0000 <= n < UINT && NoDigit(tail) && Consumes(long, tail, count)
    ensures Consumes(long, ([SPACE] + PrintInt(n)) + tail, count + 1)
  {
    Associative([SPACE], PrintInt(n), tail);
    ScanPrinted(long, n, tail);
    hide PrintInt, ScanNumber, ScanNumbers;
    ScanMore(long, ([SPACE] + PrintInt(n)) + tail, tail, count);
  }

  /** Of the numbers of a request that is cut short, nothing but white space is ever left over. */
  lemma {:induction false} CutJoined(long: Long, numbers: seq<int>, k: nat)
    requires Printable(numbers) && k <= |Join(numbers)| + 1
    ensures Consumes(long, (Join(numbers) + [SPACE])[..k], |numbers|)
    decreases |numbers|
  {
    if numbers == [] {
      assert (Join(numbers) + [SPACE])[..k] == [] || (Join(numbers) + [SPACE])[..k] == [SPACE];
      assert [SPACE][1..] == [];
    } else {
      var n, more := numbers[0], numbers[1..];
      var first, rest := [SPACE] + PrintInt(n), Join(more) + [SPACE];
      JoinOne(numbers, [SPACE]);
      JoinSpace(more);
      hide PrintInt, Join, Consumes;
      Associative([SPACE], PrintInt(n), rest);
      TakeConcat(first, rest, k);
      if k <= |first| {
        CutInside(long, n, k, |more|);
      } else {
        CutJoined(long, more, k - |first|);
        assert rest[..k - |first|][0] == SPACE;
        CutBehind(long, n, rest[..k - |first|], |more|);
      }
    }
  }

  lemma ScanMore(long: Long, s: Text, tail: Text, count: nat)
    requires ScanNumber(long, s).Some? && ScanNumber(long, s).value.1 == tail
    ensures var r, more := ScanNumbers(long, s, count + 1), ScanNumbers(long, tail, count);
            r.Some? <==> more.Some?
    ensures var r, more := ScanNumbers(long, s, count + 1), ScanNumbers(long, tail, count);
            r.Some? ==> r.value.1 == more.value.1
  {
  }

  lemma ScanNone(long: Long, s: Text, count: nat)
    requires ScanNumber(long, s).None?
    ensures ScanNumbers(long, s, count + 1).None?
  {
  }

  lemma ScanNothing(long: Long, count: nat)
    ensures ScanNumbers(long, [], count).Some? ==> ScanNumbers(long, [], count).value.1 == []
  {
    assert ScanNumber(long, []) == None;
  }

  lemma JoinSpace(numbers: seq<int>)
    ensures (Join(numbers) + [SPACE])[0] == SPACE
  {
  }

  /** The numbers are followed by less than the name when something is missing. */
  lemma CutTail(long: Long, numbers: seq<int>, name: Text, k: nat)
    requires Printable(numbers) && name != [] && !IsSpace(name[0])
    requires k <= |Join(numbers)| + |name|
    ensures var r := ScanNumbers(long, (Join(numbers) + ([SPACE] + name))[..k], |numbers|);
            r.Some? ==> DropSpace(r.value.1) != name
  {
    hide Join, ScanNumbers, ScanNumber, Wrapped, IsSpace;
    var joined, tail := Join(numbers), [SPACE] + name;
    if k <= |joined| + 1 {
      assert (joined + tail)[..k] == (joined + [SPACE])[..k];
      CutJoined(long, numbers, k);
    } else {
      TakeConcat(joined, tail, k);
      var part := name[..k - |joined| - 1];
      assert tail[..k - |joined|] == [SPACE] + part;
      ScanJoined(long, numbers, [SPACE] + part);
      SpaceAndName(part);
    }
  }

  /** A request of which some octets are missing never carries the name that was sent. */
  lemma CutFile(long: Long, size: nat, mode: nat, hi: nat, lo: nat, name: Text, k: nat)
    requires mode < UINT && hi < UINT && lo < UINT
    requires name != [] && !IsSpace(name[0])
    requires k < |PrintFile(size, mode, hi, lo, name)|
    ensures match ScanRequest(long, PrintFile(size, mode, hi, lo, name)[..k])
            case FileRequest(_, _, _, _, found) => found != name
            case DataRequest(_) => false
            case BadRequest => true
  {
    var whole := PrintFile(size, mode, hi, lo, name);
    Printed(size, mode, hi, lo, name);
    NumbersWrapped(size, mode, hi, lo);
    CutWord(whole, k);
    hide Join, ScanNumbers, ScanNumber, PrintFile, StartsWith, Wrapped, IsSpace, Printable, Numbers, DropSpace;
    if k >= 5 {
      assert whole[..k][4..] == whole[4..][..k - 4];
      CutTail(long, Numbers(size, mode, hi, lo), name, k - 4);
    }
  }

  lemma SpaceAndName(name: Text)
    requires name == [] || !IsSpace(name[0])
    ensures DropSpace([SPACE] + name) == name
  {
    assert ([SPACE] + name)[1..] == name;
  }

  lemma CutWord(whole: Text, k: nat)
    requires StartsWith(whole, FILE + [SPACE]) && k <= |whole|
    ensures StartsWith(whole[..k], FILE + [SPACE]) <==> k >= 5
    ensures !StartsWith(whole[..k], DATA + [SPACE])
  {
    assert whole[..5][0] == whole[0] == 70;
    if k >= 5 {
      assert whole[..k][..5] == whole[..5];
      assert whole[..5][0] != (DATA + [SPACE])[0];
    }
  }

  // ---- The date ----

  /** Microseconds from the year 0 to 1970, as the Psion counts them. */
  const EPOCH: nat := 62168263200000000
  const ULLONG: nat := 0x1_0000_0000_0000_0000

  function SentDate(mtime: int): nat { (EPOCH + 1000000 * (mtime % UINT)) % ULLONG }

  function ReceivedDate(hi: nat, lo: nat): nat { (hi * UINT + lo + ULLONG - EPOCH) % ULLONG / 1000000 % UINT }

  /** The date survives: no step of it overflows, and what arrives is the sender's time modulo 2^32. */
  lemma DateSurvives(mtime: int)
    ensures SentDate(mtime) == EPOCH + 1000000 * (mtime % UINT) < ULLONG
    ensures SentDate(mtime) / UINT < UINT
    ensures ReceivedDate(SentDate(mtime) / UINT, SentDate(mtime) % UINT) == mtime % UINT
  {
    var date := SentDate(mtime);
    assert date / UINT * UINT + date % UINT == date;
    assert (1000000 * (mtime % UINT) + ULLONG) % ULLONG == 1000000 * (mtime % UINT);
  }
}
