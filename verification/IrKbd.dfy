/**
 The driver of the Tekram infrared keyboard and mouse (irkbd.c): frames from the device are taken
 apart into sub-frames, and a small state machine, driven by responses and by a one-shot timer,
 initialises the device and then polls it.
 */
module IrKbd {
  import opened Bytes

  // ---- Sub-frames ----

  const BUF_SIZE := 4096
  const SUBFRAME_RESPONSE := 0
  const SUBFRAME_KEYBOARD := 1
  const SUBFRAME_MOUSE := 2
  const SUBFRAME_MOUSE2 := 3

  /** A sub-frame: its type, which is the upper two bits of its first octet, and its payload. */
  datatype Sub = Sub(kind: nat, payload: seq<byte>)
  {
    predicate IsMouse() { kind == SUBFRAME_MOUSE || kind == SUBFRAME_MOUSE2 }

    /** The lower six bits count octets, but records of three octets for the mouse. */
    predicate Proper() {
      kind <= SUBFRAME_MOUSE2 && if IsMouse() then |payload| % 3 == 0 && |payload| < 192 else |payload| < 64
    }

    function Octets(): (s: seq<byte>)
      requires Proper()
      ensures |s| == 1 + |payload|
    {
      [64 * kind + if IsMouse() then |payload| / 3 else |payload|] + payload
    }
  }

  ghost predicate AllProper(subs: seq<Sub>) {
    forall k :: 0 <= k < |subs| ==> subs[k].Proper()
  }

  function Encode(subs: seq<Sub>): seq<byte>
    requires AllProper(subs)
  {
    if subs == [] then [] else subs[0].Octets() + Encode(subs[1..])
  }

  lemma EncodeCons(sub: Sub, subs: seq<Sub>)
    requires sub.Proper() && AllProper(subs)
    ensures AllProper([sub] + subs) && Encode([sub] + subs) == sub.Octets() + Encode(subs)
  {
    assert ([sub] + subs)[1..] == subs;
  }

  function Kind(first: byte): nat { first as int / 64 }

  function PayloadSize(first: byte): nat {
    var sublen := first as int % 64;
    if Kind(first) >= SUBFRAME_MOUSE then 3 * sublen else sublen
  }

  /** The sub-frames that were met, where the walk ended, and whether it ended inside the buffer. */
  datatype Walked = Walked(subs: seq<Sub>, end: nat, inside: bool)

  /** The walk over the sub-frames at `n`, with what is left of the frame in an 8-bit counter. */
  function Walk(m: seq<byte>, n: nat, len: byte): Walked
    decreases |m| - n
  {
    if len == 0 then Walked([], n, true)
    else if n >= |m| || n + 1 + PayloadSize(m[n]) > |m| then Walked([], n, false)
    else
      var to := n + 1 + PayloadSize(m[n]);
      var w := Walk(m, to, (len as int - 1 - PayloadSize(m[n])) % 256);
      Walked([Sub(Kind(m[n]), m[n + 1..to])] + w.subs, w.end, w.inside)
  }

  /** What the first octet of a sub-frame says: its payload's size, and, in its upper bits, whom it is for. */
  lemma FirstInOctets(first: byte, payload: seq<byte>)
    ensures PayloadSize(first) == if first >= 0x80 then 3 * (first % 0x40) else first % 0x40
    ensures Sub(Kind(first), payload).IsMouse() <==> first >= 0x80
    ensures Kind(first) == SUBFRAME_KEYBOARD <==> 0x40 <= first < 0x80
    ensures Kind(first) == SUBFRAME_RESPONSE <==> first < 0x40
  {
  }

  lemma FirstOctet(sub: Sub)
    requires sub.Proper()
    ensures Kind(sub.Octets()[0]) == sub.kind && PayloadSize(sub.Octets()[0]) == |sub.payload|
    ensures sub.Octets()[1..] == sub.payload
  {
  }

  lemma SubAt(m: seq<byte>, n: nat)
    requires n < |m| && n + 1 + PayloadSize(m[n]) <= |m|
    ensures var to := n + 1 + PayloadSize(m[n]);
            var sub := Sub(Kind(m[n]), m[n + 1..to]);
            sub.Proper() && sub.Octets() == m[n..to]
  {
  }

  lemma WalkStep(m: seq<byte>, n: nat, len: byte)
    requires len != 0
    ensures var w := Walk(m, n, len);
            if n < |m| && n + 1 + PayloadSize(m[n]) <= |m| then
              var to := n + 1 + PayloadSize(m[n]);
              var v := Walk(m, to, (len as int - (to - n)) % 256);
              w == Walked([Sub(Kind(m[n]), m[n + 1..to])] + v.subs, v.end, v.inside)
            else w == Walked([], n, false)
  {
  }

  lemma WalkDone(m: seq<byte>, n: nat)
    ensures Walk(m, n, 0) == Walked([], n, true)
  {
  }

  /** A list of sub-frames is met as it was sent. */
  lemma {:induction false} WalkEncoded(m: seq<byte>, n: nat, subs: seq<Sub>)
    requires AllProper(subs) && |Encode(subs)| < 256
    requires n + |Encode(subs)| <= |m| && m[n..n + |Encode(subs)|] == Encode(subs)
    ensures Walk(m, n, |Encode(subs)|) == Walked(subs, n + |Encode(subs)|, true)
    decreases |subs|
  {
    hide Walk, Kind, PayloadSize, Sub.Octets, Sub.Proper;
    if subs == [] {
      WalkDone(m, n);
    } else {
      var first, rest := subs[0].Octets(), Encode(subs[1..]);
      var to := n + |first|;
      FirstOctet(subs[0]);
      FirstAt(m, n, first, rest);
      WalkEncoded(m, to, subs[1..]);
      WalkStep(m, n, |Encode(subs)|);
      assert subs[0] == Sub(Kind(m[n]), m[n + 1..to]);
    }
  }

  lemma FirstAt(m: seq<byte>, n: nat, first: seq<byte>, rest: seq<byte>)
    requires first != [] && n + |first| + |rest| <= |m|
    requires m[n..n + |first| + |rest|] == first + rest
    ensures m[n] == first[0] && m[n + 1..n + |first|] == first[1..]
    ensures m[n + |first|..n + |first| + |rest|] == rest
  {
    var e := m[n..n + |first| + |rest|];
    assert m[n] == e[0];
    SliceOfSlice(m, n, n + |e|, 1, |first|);
    SliceOfLeft(first, rest, 1, |first|);
    SliceOfSlice(m, n, n + |e|, |first|, |e|);
    SliceOfRight(first, rest, 0, |rest|);
    assert first[1..|first|] == first[1..] && rest[0..|rest|] == rest;
  }

  /** A walk that ends at all ends at the end of the frame, or a multiple of 256 octets behind it. */
  lemma {:induction false} WalkEnds(m: seq<byte>, n: nat, len: byte)
    requires Walk(m, n, len).inside
    ensures Walk(m, n, len).end >= n + len as int && (Walk(m, n, len).end - n - len as int) % 256 == 0
    decreases |m| - n
  {
    hide Walk, Kind, PayloadSize;
    if len == 0 {
      WalkDone(m, n);
    } else {
      WalkStep(m, n, len);
      var size := 1 + PayloadSize(m[n]);
      var left := (len as int - size) % 256;
      WalkEnds(m, n + size, left);
      Wraps(Walk(m, n, len).end, n + size, len as int - size);
    }
  }

  lemma Wraps(end: int, at: int, x: int)
    requires (end - at - x % 256) % 256 == 0
    ensures (end - at - x) % 256 == 0
  {
  }

  /** A walk that ends at the end of the frame has met a list of sub-frames. */
  lemma {:induction false} WalkDecodes(m: seq<byte>, n: nat, len: byte)
    requires n <= |m| && Walk(m, n, len).inside && Walk(m, n, len).end == n + len as int
    ensures var subs := Walk(m, n, len).subs;
            AllProper(subs) && n + len as int <= |m| && Encode(subs) == m[n..n + len as int]
    decreases |m| - n
  {
    hide Walk, Kind, PayloadSize, Sub.Octets, Sub.Proper;
    if len == 0 {
      WalkDone(m, n);
    } else {
      WalkStep(m, n, len);
      var to := n + 1 + PayloadSize(m[n]);
      var left := (len as int - (to - n)) % 256;
      WalkEnds(m, to, left);
      assert left == len as int - (to - n);
      WalkDecodes(m, to, left);
      SubAt(m, n);
      EncodeCons(Sub(Kind(m[n]), m[n + 1..to]), Walk(m, to, left).subs);
      assert m[n..n + len as int] == m[n..to] + m[to..n + len as int];
    }
  }

  /** A frame of sub-frames. */
  ghost predicate Sends(m: seq<byte>, subs: seq<Sub>) {
    AllProper(subs) && |Encode(subs)| < 256 && [|Encode(subs)|] + Encode(subs) <= m
  }

  /**
   The walk over a buffer ends at the end of the frame if and only if the frame is a list of
   sub-frames, and then it meets exactly these.
   */
  lemma EndsIffEncoded(m: seq<byte>)
    requires m != []
    ensures var w := Walk(m, 1, m[0]);
            && (w.inside && w.end == 1 + m[0] as int <==> exists subs :: Sends(m, subs))
            && forall subs :: Sends(m, subs) ==> w == Walked(subs, 1 + m[0] as int, true)
  {
    hide Walk;
    var w := Walk(m, 1, m[0]);
    forall subs | Sends(m, subs)
      ensures w == Walked(subs, 1 + m[0] as int, true)
    {
      SentIsMet(m, subs);
    }
    if w.inside && w.end == 1 + m[0] as int {
      WalkDecodes(m, 1, m[0]);
      assert [m[0]] + m[1..1 + m[0] as int] == m[..1 + m[0] as int];
      assert Sends(m, w.subs);
    }
  }

  lemma SentIsMet(m: seq<byte>, subs: seq<Sub>)
    requires Sends(m, subs)
    ensures Walk(m, 1, m[0]) == Walked(subs, 1 + m[0] as int, true)
  {
    hide Walk, Encode;
    var f: seq<byte> := [|Encode(subs)|] + Encode(subs);
    assert m[0] == f[0];
    assert m[1..1 + |Encode(subs)|] == f[1..] == Encode(subs);
    WalkEncoded(m, 1, subs);
  }

  // ---- The state machine ----

  const CMD_INIT_KBD: byte := 0xfe
  const CMD_INIT_MOUSE: byte := 0xff
  const CMD_ENABLE: byte := 0x41

  const RSP_KBDOK: byte := 0x11
  const RSP_KBDERR: byte := 0x12
  const RSP_MSOK: byte := 0x21
  const RSP_MSERR: byte := 0x22
  const RSP_RSPN41: byte := 0x41

  const RATE := 15_000
  const IDLE_RATE := 100_000
  const TIMEOUT := 1_000_000

  datatype Phase = Idle | InitKbd | InitMouse | Ready | Polling

  /** `timer` is how many microseconds the timer was last started with, 0 when it is not running. */
  datatype Machine = Machine(phase: Phase, powerSave: int, timer: nat, sent: seq<byte>)

  /** What happens to the machine; the first three are the steps of `main` after connecting. */
  datatype Event = StartKbd | StartMouse | StartTimer | Response(code: byte) | Input | Expired

  function Start(): Machine { Machine(Idle, 0, 0, []) }

  function Respond(s: Machine, code: byte): Machine {
    if code == RSP_RSPN41 then
      s.(powerSave := s.powerSave + 1, timer := if s.powerSave > 100 then IDLE_RATE else RATE)
    else if code == RSP_KBDOK || code == RSP_KBDERR then s.(phase := InitMouse, timer := RATE)
    else if code == RSP_MSOK || code == RSP_MSERR then s.(phase := Ready, timer := 100_000)
    else s
  }

  function Expire(s: Machine): Machine {
    match s.phase
    case Polling => s.(sent := s.sent + [CMD_ENABLE], timer := TIMEOUT)
    case Idle => s.(timer := 0)
    case InitKbd => s.(sent := s.sent + [CMD_INIT_KBD], timer := 0)
    case InitMouse => s.(sent := s.sent + [CMD_INIT_MOUSE], timer := 0)
    case Ready => s.(sent := s.sent + [CMD_ENABLE], phase := Polling, timer := 0)
  }

  function Step(s: Machine, e: Event): Machine {
    match e
    case StartKbd => s.(phase := InitKbd)
    case StartMouse => s.(phase := InitMouse)
    case StartTimer => s.(timer := TIMEOUT)
    case Response(code) => Respond(s, code)
    case Input => s.(powerSave := 0, timer := RATE)
    case Expired => Expire(s)
  }

  /** What a response does, in numbers: 0x41 is an empty answer, the others end the initialisations. */
  lemma ResponsesInNumbers(s: Machine, code: byte)
    ensures var t := Step(s, Response(code));
            && t.sent == s.sent
            && (code == 0x41 ==>
                  && t.phase == s.phase && t.powerSave == s.powerSave + 1
                  && t.timer == if s.powerSave > 100 then 100_000 else 15_000)
            && (code in {0x11, 0x12} ==> t.phase == InitMouse && t.timer == 15_000 && t.powerSave == s.powerSave)
            && (code in {0x21, 0x22} ==> t.phase == Ready && t.timer == 100_000 && t.powerSave == s.powerSave)
            && (code !in {0x41, 0x11, 0x12, 0x21, 0x22} ==> t == s)
  {
  }

  /** What the expiry of the timer does, in numbers. */
  lemma ExpiryInNumbers(s: Machine)
    ensures var t := Step(s, Expired);
            && t.powerSave == s.powerSave
            && t.sent == s.sent + (match s.phase
                                   case Idle => []
                                   case InitKbd => [0xfe]
                                   case InitMouse => [0xff]
                                   case Ready => [0x41]
                                   case Polling => [0x41])
            && t.phase == (if s.phase == Ready then Polling else s.phase)
            && t.timer == if s.phase == Polling then 1_000_000 else 0
  {
  }

  /** What input and the steps of `main` do, in numbers. */
  lemma OthersInNumbers(s: Machine)
    ensures Step(s, Input) == Machine(s.phase, 0, 15_000, s.sent)
    ensures Step(s, StartKbd) == Machine(InitKbd, s.powerSave, s.timer, s.sent)
    ensures Step(s, StartMouse) == Machine(InitMouse, s.powerSave, s.timer, s.sent)
    ensures Step(s, StartTimer) == Machine(s.phase, s.powerSave, 1_000_000, s.sent)
    ensures Start() == Machine(Idle, 0, 0, []) && BUF_SIZE == 4096
  {
  }

  function After(hist: seq<Event>): Machine {
    if hist == [] then Start() else Step(After(hist[..|hist| - 1]), hist[|hist| - 1])
  }

  // ---- What is sent when ----

  predicate KbdAnswer(e: Event) { e.Response? && (e.code == RSP_KBDOK || e.code == RSP_KBDERR) }

  predicate MouseAnswer(e: Event) { e.Response? && (e.code == RSP_MSOK || e.code == RSP_MSERR) }

  predicate Moves(e: Event) { e.StartKbd? || e.StartMouse? || KbdAnswer(e) || MouseAnswer(e) }

  /** The event that last moved the machine, however often the timer has expired since. */
  ghost predicate LastMove(hist: seq<Event>, k: int) {
    0 <= k < |hist| && Moves(hist[k]) && forall j :: k < j < |hist| ==> !Moves(hist[j])
  }

  /** Where it is; -1 if there was none. */
  function Mover(hist: seq<Event>): (k: int)
    ensures -1 <= k < |hist|
  {
    if hist == [] then -1
    else if Moves(hist[|hist| - 1]) then |hist| - 1
    else Mover(hist[..|hist| - 1])
  }

  lemma {:induction false} MoverIsLastMove(hist: seq<Event>, k: int)
    ensures LastMove(hist, k) <==> k == Mover(hist) && k >= 0
    ensures Mover(hist) == -1 ==> forall j :: 0 <= j < |hist| ==> !Moves(hist[j])
  {
    if hist != [] {
      var init := hist[..|hist| - 1];
      MoverIsLastMove(init, k);
      if !Moves(hist[|hist| - 1]) {
        assert LastMove(hist, k) <==> LastMove(init, k);
        assert forall j :: 0 <= j < |init| ==> hist[j] == init[j];
      }
    }
  }

  /** The last move decides the phase, but for the timer's part in it. */
  lemma {:induction false} PhaseIs(hist: seq<Event>)
    ensures var phase, k := After(hist).phase, Mover(hist);
            if k == -1 then phase == Idle
            else if hist[k].StartKbd? then phase == InitKbd
            else if MouseAnswer(hist[k]) then phase == Ready || phase == Polling
            else phase == InitMouse
  {
    if hist != [] {
      PhaseIs(hist[..|hist| - 1]);
    }
  }

  /** The answers that move the machine, in numbers. */
  lemma AnswersInNumbers(e: Event)
    ensures KbdAnswer(e) <==> e in {Response(0x11), Response(0x12)}
    ensures MouseAnswer(e) <==> e in {Response(0x21), Response(0x22)}
  {
  }

  /** Which command the expiry of the timer sends is decided by the last move; nothing else ever sends. */
  lemma SendsWhat(hist: seq<Event>, e: Event, cmd: byte)
    ensures After(hist + [e]).sent == After(hist).sent + [cmd] <==>
            && e.Expired?
            && exists k :: LastMove(hist, k) &&
                 cmd == (if MouseAnswer(hist[k]) then CMD_ENABLE
                         else if hist[k].StartKbd? then CMD_INIT_KBD
                         else CMD_INIT_MOUSE)
  {
    var k := Mover(hist);
    PhaseIs(hist);
    MoverIsLastMove(hist, k);
    forall j | LastMove(hist, j)
      ensures j == k
    {
      MoverIsLastMove(hist, j);
    }
    var all := hist + [e];
    assert all[..|all| - 1] == hist && all[|all| - 1] == e;
    var s, t := After(hist), Step(After(hist), e);
    assert After(all) == t;
    hide After, Mover;
    if t.sent == s.sent + [cmd] {
      assert t.sent[|s.sent|] == cmd;
    }
  }

  /** Polling starts only after the mouse has answered, well or badly, since `main` set the first state. */
  lemma EnableNeedsAnswer(hist: seq<Event>)
    requires After(hist + [Expired]).sent == After(hist).sent + [CMD_ENABLE]
    ensures exists k :: 0 <= k < |hist| && MouseAnswer(hist[k]) &&
              forall j :: k < j < |hist| ==> !hist[j].StartKbd? && !hist[j].StartMouse?
  {
    SendsWhat(hist, Expired, CMD_ENABLE);
    hide After;
    var k :| LastMove(hist, k) && MouseAnswer(hist[k]);
    forall j | k < j < |hist|
      ensures !hist[j].StartKbd? && !hist[j].StartMouse?
    {
      assert !Moves(hist[j]);
    }
  }

  // ---- How often the device is polled ----

  function Polls(hist: seq<Event>): nat {
    if hist == [] then 0
    else Polls(hist[..|hist| - 1]) + if hist[|hist| - 1] == Response(RSP_RSPN41) then 1 else 0
  }

  ghost predicate Quiet(hist: seq<Event>) {
    forall j :: 0 <= j < |hist| ==> !hist[j].Input?
  }

  /** From where on there was no input. */
  function Since(hist: seq<Event>): (k: nat)
    ensures k <= |hist|
  {
    if hist == [] then 0
    else if hist[|hist| - 1].Input? then |hist|
    else Since(hist[..|hist| - 1])
  }

  lemma {:induction false} SinceIsFirstQuiet(hist: seq<Event>, k: nat)
    requires k <= |hist|
    ensures Quiet(hist[k..]) <==> Since(hist) <= k
  {
    if k < |hist| {
      var init := hist[..|hist| - 1];
      SinceIsFirstQuiet(init, k);
      assert hist[k..] == init[k..] + [hist[|hist| - 1]];
      assert hist[k..][|hist| - 1 - k] == hist[|hist| - 1];
      if Quiet(hist[k..]) {
        assert forall j :: 0 <= j < |init[k..]| ==> init[k..][j] == hist[k..][j];
      }
    }
  }

  lemma {:induction false} PowerSaveIs(hist: seq<Event>)
    ensures After(hist).powerSave == Polls(hist[Since(hist)..])
  {
    if hist != [] && Since(hist) < |hist| {
      var k, init := Since(hist), hist[..|hist| - 1];
      PowerSaveIs(init);
      assert hist[k..][..|hist| - 1 - k] == init[k..];
      assert hist[k..][|hist| - 1 - k] == hist[|hist| - 1];
    }
  }

  lemma {:induction false} PollsOfSuffix(hist: seq<Event>, j: nat, k: nat)
    requires j <= k <= |hist|
    ensures Polls(hist[k..]) <= Polls(hist[j..])
  {
    if k < |hist| {
      var init := hist[..|hist| - 1];
      PollsOfSuffix(init, j, k);
      assert hist[k..][..|hist| - 1 - k] == init[k..] && hist[j..][..|hist| - 1 - j] == init[j..];
    } else {
      assert hist[k..] == [];
    }
  }

  /**
   After an empty answer to a poll the device is polled slowly if and only if it gave more than 100 such
   answers before and there was no input since.
   */
  lemma SlowIff(hist: seq<Event>)
    ensures var timer := After(hist + [Response(RSP_RSPN41)]).timer;
            && (timer == IDLE_RATE || timer == RATE)
            && (timer == IDLE_RATE <==> exists k :: 0 <= k <= |hist| && Quiet(hist[k..]) && Polls(hist[k..]) > 100)
  {
    var all := hist + [Response(RSP_RSPN41)];
    assert all[..|all| - 1] == hist;
    PowerSaveIs(hist);
    SinceIsFirstQuiet(hist, Since(hist));
    if k :| 0 <= k <= |hist| && Quiet(hist[k..]) && Polls(hist[k..]) > 100 {
      SinceIsFirstQuiet(hist, k);
      PollsOfSuffix(hist, Since(hist), k);
    }
  }

  // ---- What a frame does ----

  /** The machine with the octets that were passed on. */
  datatype World = World(machine: Machine, fifo: seq<byte>, console: seq<byte>)

  function Run(s: Machine, events: seq<Event>): Machine
    decreases |events|
  {
    if events == [] then s else Run(Step(s, events[0]), events[1..])
  }

  function Responses(codes: seq<byte>): (r: seq<Event>)
    ensures |r| == |codes| && forall k :: 0 <= k < |r| ==> r[k] == Response(codes[k])
  {
    if codes == [] then [] else [Response(codes[0])] + Responses(codes[1..])
  }

  /** Deals with one sub-frame. */
  function Deal(w: World, sub: Sub): World {
    if sub.IsMouse() then w.(fifo := w.fifo + sub.payload, machine := Step(w.machine, Input))
    else if sub.kind == SUBFRAME_KEYBOARD then
      w.(console := w.console + sub.payload, machine := Step(w.machine, Input))
    else w.(machine := Run(w.machine, Responses(sub.payload)))
  }

  function DealAll(w: World, subs: seq<Sub>): World
    decreases |subs|
  {
    if subs == [] then w else DealAll(Deal(w, subs[0]), subs[1..])
  }

  /** What a list of sub-frames is to the machine. */
  function Events(subs: seq<Sub>): seq<Event> {
    if subs == [] then []
    else EventsOf(subs[0]) + Events(subs[1..])
  }

  function EventsOf(sub: Sub): seq<Event> {
    if sub.kind == SUBFRAME_RESPONSE then Responses(sub.payload) else [Input]
  }

  /** The payloads of the sub-frames for the mouse, or of those for the keyboard. */
  function Payloads(subs: seq<Sub>, mouse: bool): seq<byte> {
    if subs == [] then []
    else Payload(subs[0], mouse) + Payloads(subs[1..], mouse)
  }

  function Payload(sub: Sub, mouse: bool): seq<byte> {
    if (if mouse then sub.IsMouse() else sub.kind == SUBFRAME_KEYBOARD) then sub.payload else []
  }

  /** Whom a sub-frame is passed on to, by its first octet. */
  lemma DealtByOctet(w: World, first: byte, payload: seq<byte>)
    ensures var v := Deal(w, Sub(Kind(first), payload));
            if first >= 0x80 then v == World(Step(w.machine, Input), w.fifo + payload, w.console)
            else if first >= 0x40 then v == World(Step(w.machine, Input), w.fifo, w.console + payload)
            else v == World(Run(w.machine, Responses(payload)), w.fifo, w.console)
  {
    hide Step, Run, Responses;
  }

  lemma {:induction false} RunAppend(s: Machine, a: seq<Event>, b: seq<Event>)
    ensures Run(s, a + b) == Run(Run(s, a), b)
    decreases |a|
  {
    if a == [] {
      assert a + b == b;
    } else {
      assert (a + b)[1..] == a[1..] + b;
      RunAppend(Step(s, a[0]), a[1..], b);
    }
  }

  /** Every octet of a payload goes to the handler of its type, once and in order. */
  lemma {:induction false} Dispatched(w: World, subs: seq<Sub>)
    requires AllProper(subs)
    ensures DealAll(w, subs) ==
            World(Run(w.machine, Events(subs)), w.fifo + Payloads(subs, true), w.console + Payloads(subs, false))
    decreases |subs|
  {
    if subs != [] {
      var v, rest := Deal(w, subs[0]), subs[1..];
      Dispatched(v, rest);
      DispatchedOne(w, subs[0], Events(rest));
      hide Run, Responses, Step, Deal;
      assert subs == [subs[0]] + rest;
      Associative(w.fifo, Payload(subs[0], true), Payloads(rest, true));
      Associative(w.console, Payload(subs[0], false), Payloads(rest, false));
    }
  }

  lemma DispatchedOne(w: World, sub: Sub, later: seq<Event>)
    requires sub.Proper()
    ensures Deal(w, sub).fifo == w.fifo + Payload(sub, true) && Deal(w, sub).console == w.console + Payload(sub, false)
    ensures Run(w.machine, EventsOf(sub) + later) == Run(Deal(w, sub).machine, later)
  {
    RunAppend(w.machine, EventsOf(sub), later);
    hide Step;
  }

  /** A frame of sub-frames is dispatched whole, and nothing else is. */
  lemma FrameDispatched(w: World, m: seq<byte>, subs: seq<Sub>)
    requires Sends(m, subs)
    ensures DealAll(w, Walk(m, 1, m[0]).subs) ==
            World(Run(w.machine, Events(subs)), w.fifo + Payloads(subs, true), w.console + Payloads(subs, false))
  {
    EndsIffEncoded(m);
    Dispatched(w, subs);
  }

  /** The end of a connection leaves the last frame in the buffer, so it is dispatched a second time. */
  lemma LostConnectionRepeats(w: World, m: seq<byte>, subs: seq<Sub>)
    requires Sends(m, subs)
    ensures var mouse, console := Payloads(subs, true), Payloads(subs, false);
            DealAll(DealAll(w, Walk(m, 1, m[0]).subs), Walk([] + m[0..], 1, m[0]).subs) ==
            World(Run(w.machine, Events(subs) + Events(subs)), w.fifo + mouse + mouse, w.console + console + console)
  {
    assert [] + m[0..] == m;
    FrameDispatched(w, m, subs);
    FrameDispatched(DealAll(w, Walk(m, 1, m[0]).subs), m, subs);
    RunAppend(w.machine, Events(subs), Events(subs));
  }

  /** Nothing is dispatched then if and only if the last frame was empty. */
  lemma NothingRepeatsIff(m: seq<byte>, subs: seq<Sub>)
    requires Sends(m, subs)
    ensures Walk(m, 1, m[0]).subs == [] <==> m[0] == 0
  {
    EndsIffEncoded(m);
  }

  // ---- Runs of the driver ----

  /** What happens to the driver. An empty frame is the end of the connection. */
  datatype Call = Received(octets: seq<byte>) | TimerExpired | Connects

  predicate IsCall(c: Call) { c.Received? ==> |c.octets| <= 2048 }

  function BufferAfter(m: seq<byte>, c: Call): seq<byte> {
    if c.Received? && |c.octets| <= |m| then c.octets + m[|c.octets|..] else m
  }

  /** The sub-frames that a call dispatches. */
  function SubsOf(m: seq<byte>, c: Call): seq<Sub>
    requires |m| == BUF_SIZE && IsCall(c)
  {
    if c.Received? then var n := BufferAfter(m, c); Walk(n, 1, n[0]).subs else []
  }

  /** What a call is to the machine. */
  function EventsOfCall(m: seq<byte>, c: Call): seq<Event>
    requires |m| == BUF_SIZE && IsCall(c)
  {
    match c
    case Received(_) => Events(SubsOf(m, c))
    case TimerExpired => [Expired]
    case Connects => [StartKbd, StartMouse, StartTimer]
  }

  ghost predicate AreCalls(calls: seq<Call>) {
    forall k :: 0 <= k < |calls| ==> IsCall(calls[k])
  }

  function EventsOfCalls(m: seq<byte>, calls: seq<Call>): seq<Event>
    requires |m| == BUF_SIZE && AreCalls(calls)
    decreases |calls|
  {
    if calls == [] then [] else EventsOfCall(m, calls[0]) + EventsOfCalls(BufferAfter(m, calls[0]), calls[1..])
  }

  function OctetsOfCalls(m: seq<byte>, calls: seq<Call>, mouse: bool): seq<byte>
    requires |m| == BUF_SIZE && AreCalls(calls)
    decreases |calls|
  {
    if calls == [] then []
    else Payloads(SubsOf(m, calls[0]), mouse) + OctetsOfCalls(BufferAfter(m, calls[0]), calls[1..], mouse)
  }

  lemma {:induction false} WalkProper(m: seq<byte>, n: nat, len: byte)
    ensures AllProper(Walk(m, n, len).subs)
    decreases |m| - n
  {
    if len != 0 && n < |m| && n + 1 + PayloadSize(m[n]) <= |m| {
      SubAt(m, n);
      WalkStep(m, n, len);
      var to := n + 1 + PayloadSize(m[n]);
      var left: byte := (len as int - (to - n)) % 256;
      WalkProper(m, to, left);
      hide Walk, Kind, PayloadSize, Sub.Proper;
      assert Walk(m, n, len).subs == [Sub(Kind(m[n]), m[n + 1..to])] + Walk(m, to, left).subs;
    }
  }

  /** The driver's runs, frame by frame, are those of the machine, event by event. */
  lemma {:induction false} RunIsAfter(hist: seq<Event>, events: seq<Event>)
    ensures Run(After(hist), events) == After(hist + events)
    decreases |events|
  {
    if events == [] {
      assert hist + events == hist;
    } else {
      var one := hist + [events[0]];
      assert one[..|one| - 1] == hist;
      assert one + events[1..] == hist + events;
      RunIsAfter(one, events[1..]);
    }
  }

  // ---- The driver ----

  class Keyboard {
    var phase: Phase
    var powerSave: int
    var timer: nat
    var sent: seq<byte>
    var connected: bool
    var fifo: seq<byte>
    var console: seq<byte>
    const frame: array<byte>

    ghost predicate Valid()
      reads this
    {
      frame.Length == BUF_SIZE
    }

    function Now(): Machine
      reads this
    {
      Machine(phase, powerSave, timer, sent)
    }

    function Out(): World
      reads this
    {
      World(Now(), fifo, console)
    }

    constructor ()
      ensures Valid() && fresh(frame) && Out() == World(Start(), [], []) && !connected
      ensures forall i :: 0 <= i < BUF_SIZE ==> frame[i] == 0
    {
      phase, powerSave, timer, sent := Idle, 0, 0, [];
      connected, fifo, console := false, [], [];
      frame := new byte[BUF_SIZE](_ => 0);
    }

    method StartWatchdogTimer(usec: nat)
      modifies this`timer
      ensures timer == usec
    {
      timer := usec;
    }

    method HandleResponse(rsp: byte)
      modifies this`phase, this`powerSave, this`timer
      ensures Now() == Step(old(Now()), Response(rsp))
    {
      match rsp {
        case 0x41 =>
          var save := powerSave;
          powerSave := powerSave + 1;
          if save > 100 {
            StartWatchdogTimer(IDLE_RATE);
          } else {
            StartWatchdogTimer(RATE);
          }
        case 0x11 =>
          phase := InitMouse;
          StartWatchdogTimer(RATE);
        case 0x12 =>
          phase := InitMouse;
          StartWatchdogTimer(RATE);
        case 0x21 =>
          phase := Ready;
          StartWatchdogTimer(100_000);
        case 0x22 =>
          phase := Ready;
          StartWatchdogTimer(100_000);
        case _ =>
      }
    }

    method WatchdogTimerExpired()
      modifies this`phase, this`timer, this`sent
      ensures Now() == Step(old(Now()), Expired)
    {
      timer := 0;
      match phase {
        case Polling =>
          sent := sent + [CMD_ENABLE];
          StartWatchdogTimer(TIMEOUT);
        case Idle =>
        case InitKbd =>
          sent := sent + [CMD_INIT_KBD];
        case InitMouse =>
          sent := sent + [CMD_INIT_MOUSE];
        case Ready =>
          sent := sent + [CMD_ENABLE];
          phase := Polling;
      }
    }

    /** What `main` does after it has connected, when no signal comes in between. */
    method Connected()
      modifies this`phase, this`timer, this`connected
      ensures Now() == Run(old(Now()), [StartKbd, StartMouse, StartTimer]) && connected
    {
      connected := true;
      phase := InitKbd;
      phase := InitMouse;
      StartWatchdogTimer(TIMEOUT);
    }

    method HandleMouse(n: nat, to: nat)
      requires Valid() && n <= to <= BUF_SIZE
      modifies this`fifo, this`powerSave, this`timer
      ensures fifo == old(fifo) + frame[n..to] && Now() == Step(old(Now()), Input)
    {
      for i := n to to
        invariant fifo == old(fifo) + frame[n..i]
      {
        fifo := fifo + [frame[i]];
      }
      powerSave := 0;
      StartWatchdogTimer(RATE);
    }

    method HandleKeyboard(n: nat, to: nat)
      requires Valid() && n <= to <= BUF_SIZE
      modifies this`console, this`powerSave, this`timer
      ensures console == old(console) + frame[n..to] && Now() == Step(old(Now()), Input)
    {
      for i := n to to
        invariant console == old(console) + frame[n..i]
      {
        console := console + [frame[i]];
      }
      powerSave := 0;
      StartWatchdogTimer(RATE);
    }

    method HandleResponses(n: nat, to: nat)
      requires Valid() && n <= to <= BUF_SIZE
      modifies this`phase, this`powerSave, this`timer
      ensures Now() == Run(old(Now()), Responses(frame[n..to]))
    {
      for i := n to to
        invariant Run(Now(), Responses(frame[i..to])) == Run(old(Now()), Responses(frame[n..to]))
      {
        hide Step;
        HandleResponse(frame[i]);
        assert frame[i..to][1..] == frame[i + 1..to];
      }
    }

    method HandleSub(n: nat, to: nat)
      requires Valid() && n < to <= BUF_SIZE
      modifies this`fifo, this`console, this`phase, this`powerSave, this`timer
      ensures Out() == Deal(old(Out()), Sub(Kind(frame[n]), frame[n + 1..to]))
    {
      hide Step;
      if Kind(frame[n]) >= SUBFRAME_MOUSE {
        HandleMouse(n + 1, to);
      } else if Kind(frame[n]) == SUBFRAME_KEYBOARD {
        HandleKeyboard(n + 1, to);
      } else {
        HandleResponses(n + 1, to);
      }
    }

    /** Takes the frame in the buffer apart; `inside` is false when that would lead out of the buffer. */
    method ParseFrame() returns (inside: bool)
      requires Valid()
      modifies this`fifo, this`console, this`phase, this`powerSave, this`timer
      ensures var w := Walk(frame[..], 1, frame[0]);
              inside == w.inside && Out() == DealAll(old(Out()), w.subs)
    {
      hide Walk, Kind, PayloadSize, Deal, DealAll;
      ghost var m := frame[..];
      var n, len: byte := 1, frame[0];
      NoneDealt(Out());
      while len > 0
        invariant n >= 1
        invariant Walk(m, n, len).inside == Walk(m, 1, m[0]).inside
        invariant DealAll(Out(), Walk(m, n, len).subs) == DealAll(old(Out()), Walk(m, 1, m[0]).subs)
        decreases BUF_SIZE - n
      {
        WalkStep(m, n, len);
        NoneDealt(Out());
        if n >= BUF_SIZE || n + 1 + PayloadSize(frame[n]) > BUF_SIZE {
          return false;
        }
        var to := n + 1 + PayloadSize(frame[n]);
        var left: byte := (len as int - (to - n)) % 256;
        FirstDealt(Out(), Sub(Kind(m[n]), m[n + 1..to]), Walk(m, to, left).subs);
        HandleSub(n, to);
        n, len := to, left;
      }
      WalkDone(m, n);
      NoneDealt(Out());
      return true;
    }

    /** Receives a frame over what is left of the last one, and takes it apart. */
    method DataIndication(received: seq<byte>) returns (inside: bool)
      requires Valid() && |received| <= 2048
      modifies this, frame
      ensures Valid() && frame[..] == received + old(frame[..])[|received|..]
      ensures connected == (old(connected) && received != [])
      ensures var w := Walk(frame[..], 1, frame[0]);
              inside == w.inside && Out() == DealAll(old(Out()), w.subs)
    {
      if received == [] {
        connected := false;
      }
      forall i | 0 <= i < |received| {
        frame[i] := received[i];
      }
      inside := ParseFrame();
    }

    /** One call; the walk through a frame stops where it would leave the buffer. */
    method Perform(c: Call)
      requires Valid() && IsCall(c)
      modifies this, frame
      ensures Valid() && frame[..] == BufferAfter(old(frame[..]), c)
      ensures Now() == Run(old(Now()), EventsOfCall(old(frame[..]), c))
      ensures fifo == old(fifo) + Payloads(SubsOf(old(frame[..]), c), true)
      ensures console == old(console) + Payloads(SubsOf(old(frame[..]), c), false)
    {
      hide Walk, Step, Events, Payloads;
      NoSubs();
      match c
      case Received(octets) =>
        ghost var w, m := Out(), BufferAfter(frame[..], c);
        var _ := DataIndication(octets);
        WalkProper(m, 1, m[0]);
        Dispatched(w, Walk(m, 1, m[0]).subs);
      case TimerExpired =>
        ghost var s := Now();
        WatchdogTimerExpired();
        OneEvent(s, Expired);
      case Connects => Connected();
    }

    /**
     Over every run of frames, expiries and connections, the machine is in the state of the events of
     the run, and the octets for mouse and keyboard have been passed on in order.
     */
    method RunCalls(calls: seq<Call>)
      requires Valid() && AreCalls(calls)
      modifies this, frame
      ensures Valid()
      ensures Now() == Run(old(Now()), EventsOfCalls(old(frame[..]), calls))
      ensures fifo == old(fifo) + OctetsOfCalls(old(frame[..]), calls, true)
      ensures console == old(console) + OctetsOfCalls(old(frame[..]), calls, false)
    {
      hide Run, EventsOfCall, SubsOf, Payloads, BufferAfter;
      ghost var end := Run(Now(), EventsOfCalls(frame[..], calls));
      ghost var mouse := fifo + OctetsOfCalls(frame[..], calls, true);
      ghost var keyboard := console + OctetsOfCalls(frame[..], calls, false);
      assert calls[0..] == calls;
      for k := 0 to |calls|
        invariant Valid() && AreCalls(calls[k..])
        invariant Run(Now(), EventsOfCalls(frame[..], calls[k..])) == end
        invariant fifo + OctetsOfCalls(frame[..], calls[k..], true) == mouse
        invariant console + OctetsOfCalls(frame[..], calls[k..], false) == keyboard
      {
        ghost var m, s, later := frame[..], Now(), calls[k + 1..];
        assert calls[k..][0] == calls[k] && calls[k..][1..] == later;
        ghost var next := BufferAfter(m, calls[k]);
        ghost var was, shown := fifo, console;
        Perform(calls[k]);
        RunAppend(s, EventsOfCall(m, calls[k]), EventsOfCalls(next, later));
        Associative(was, Payloads(SubsOf(m, calls[k]), true), OctetsOfCalls(next, later, true));
        Associative(shown, Payloads(SubsOf(m, calls[k]), false), OctetsOfCalls(next, later, false));
      }
      NoEvents(Now());
    }
  }

  lemma NoneDealt(w: World)
    ensures DealAll(w, []) == w
  {
  }

  lemma FirstDealt(w: World, sub: Sub, subs: seq<Sub>)
    ensures DealAll(w, [sub] + subs) == DealAll(Deal(w, sub), subs)
  {
    assert ([sub] + subs)[1..] == subs;
  }

  lemma NoSubs()
    ensures Payloads([], true) == [] && Payloads([], false) == []
  {
  }

  lemma NoEvents(s: Machine)
    ensures Run(s, []) == s
  {
  }

  lemma OneEvent(s: Machine, e: Event)
    ensures Run(s, [e]) == Step(s, e)
  {
    assert [e][1..] == [];
  }

  /** A new driver, after any calls, is in the state that the history of their events leads to. */
  method Operate(calls: seq<Call>) returns (d: Keyboard)
    requires AreCalls(calls)
    ensures fresh(d) && d.Valid() && d.Now() == After(EventsOfCalls(seq(BUF_SIZE, _ => 0), calls))
  {
    d := new Keyboard();
    assert d.frame[..] == seq(BUF_SIZE, _ => 0);
    ghost var hist := EventsOfCalls(d.frame[..], calls);
    RunIsAfter([], hist);
    assert [] + hist == hist;
    hide After, Run, EventsOfCalls;
    d.RunCalls(calls);
  }
}
