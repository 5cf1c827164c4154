/**
 The connection tracker of irdadump (irlmp.c, irlap.c): it watches IAS queries and answers to learn
 which service a connection is for, registers connections when they are requested, and resolves
 later frames to them, through a table of fifteen slots with a one-entry cache in front.
 */
module Irlmp {
  import opened Bytes
  import opened NetBufs

  const MAX_CONNECTIONS := 15
  const LSAP_ANY: byte := 0xff

  /** Which protocols a service runs on. */
  datatype Flags = Flags(ttp: bool, obex: bool, ircomm: bool, irnet: bool)

  const NO_FLAGS := Flags(false, false, false, false)

  /** The last IAS query and the LSAP that was learned from its answer. */
  datatype Ias = Ias(lsapSel: byte, flags: Flags)

  /** The two LSAPs of a connection, in the order in which the table keeps them. */
  datatype Pair = Pair(slsap: byte, dlsap: byte)

  datatype Slot = Slot(valid: bool, pair: Pair, caddr: byte, flags: Flags)

  datatype State = State(ias: Ias, conn: seq<Slot>, cache: int)
  {
    ghost predicate WellFormed() {
      |conn| == MAX_CONNECTIONS && -1 <= cache < MAX_CONNECTIONS
    }
  }

  /** What a data frame says to the tracker besides being a frame of some pair. */
  datatype Lesson = NoLesson | Query(flags: Flags) | Answer(lsap: byte)

  /** A frame, as far as the tracker is concerned. Pairs are normalised by direction. */
  datatype Event =
    | Connect(caddr: byte, dlsap: byte, pair: Pair)
    | ConnectRsp(pair: Pair)
    | Disconnect(pair: Pair)
    | Data(lesson: Lesson, pair: Pair)
    | LinkDown(caddr: byte)
    | Other

  /** irlap_init clears everything, so the learned LSAP is 0, the LSAP of the IAS itself. */
  function Init(): State {
    State(Ias(0, NO_FLAGS), seq(MAX_CONNECTIONS, _ => Slot(false, Pair(0, 0), 0, NO_FLAGS)), -1)
  }

  /** Fifteen slots, none in use, and no LSAP learned but that of the IAS. */
  lemma InitInNumbers()
    ensures |Init().conn| == 15 && Init().ias.lsapSel == 0 && Init().cache == -1
    ensures forall k :: 0 <= k < 15 ==> !Init().conn[k].valid && Init().conn[k].pair == Pair(0, 0)
  {
  }

  // ---- Looking things up ----

  /** The first slot from `i` on that holds a pair, valid or not; -1 if none does. */
  function First(conn: seq<Slot>, p: Pair, i: nat): (r: int)
    requires i <= |conn|
    ensures r == -1 || (i <= r < |conn| && conn[r].pair == p)
    ensures forall k :: i <= k < (if r == -1 then |conn| else r) ==> conn[k].pair != p
    decreases |conn| - i
  {
    if i == |conn| then -1 else if conn[i].pair == p then i else First(conn, p, i + 1)
  }

  /** The first slot from `i` on that is not in use; -1 if there is none. */
  function FirstFree(conn: seq<Slot>, i: nat): (r: int)
    requires i <= |conn|
    ensures r == -1 || (i <= r < |conn| && !conn[r].valid)
    ensures forall k :: i <= k < (if r == -1 then |conn| else r) ==> conn[k].valid
    decreases |conn| - i
  {
    if i == |conn| then -1 else if !conn[i].valid then i else FirstFree(conn, i + 1)
  }

  predicate CacheHolds(s: State, p: Pair) {
    0 <= s.cache < |s.conn| && s.conn[s.cache].pair == p
  }

  /** Where a frame of a pair is filed; the answer is also what the cache remembers. */
  function Resolve(s: State, p: Pair): int {
    if CacheHolds(s, p) then s.cache else First(s.conn, p, 0)
  }

  function Lookup(s: State, p: Pair): State { s.(cache := Resolve(s, p)) }

  // ---- One frame ----

  /** The slot that a frame registers a connection in, or -1. */
  function Registers(s: State, e: Event): int {
    if e.Connect? && e.dlsap == s.ias.lsapSel then FirstFree(s.conn, 0) else -1
  }

  function Learn(ias: Ias, lesson: Lesson): Ias {
    match lesson
    case NoLesson => ias
    case Query(flags) => Ias(LSAP_ANY, flags)
    case Answer(lsap) => ias.(lsapSel := lsap)
  }

  function Invalidate(conn: seq<Slot>, i: int): seq<Slot> {
    if 0 <= i < |conn| then conn[i := conn[i].(valid := false)] else conn
  }

  /** Drops every connection of a LAP link. */
  function Garbage(conn: seq<Slot>, caddr: byte): (r: seq<Slot>)
    ensures |r| == |conn|
    ensures forall i :: 0 <= i < |conn| ==>
              r[i] == if conn[i].caddr == caddr then conn[i].(valid := false) else conn[i]
  {
    if conn == [] then []
    else [if conn[0].caddr == caddr then conn[0].(valid := false) else conn[0]] + Garbage(conn[1..], caddr)
  }

  function Step(s: State, e: Event): State {
    match e
    case Connect(caddr, dlsap, pair) =>
      var i := Registers(s, e);
      if i < 0 then s else s.(conn := s.conn[i := Slot(true, pair, caddr, s.ias.flags)])
    case ConnectRsp(pair) => Lookup(s, pair)
    case Disconnect(pair) => Lookup(s, pair).(conn := Invalidate(s.conn, Resolve(s, pair)))
    case Data(lesson, pair) => Lookup(s, pair).(ias := Learn(s.ias, lesson))
    case LinkDown(caddr) => s.(conn := Garbage(s.conn, caddr))
    case Other => s
  }

  /** What a lesson teaches, and what the end of a link does. */
  lemma LessonsInNumbers(s: State, flags: Flags, lsap: byte, pair: Pair, caddr: byte)
    ensures Step(s, Data(Query(flags), pair)).ias == Ias(255, flags)
    ensures Step(s, Data(Answer(lsap), pair)).ias == Ias(lsap, s.ias.flags)
    ensures Step(s, Data(NoLesson, pair)).ias == s.ias
    ensures var t := Step(s, LinkDown(caddr));
            && t.ias == s.ias && t.cache == s.cache && |t.conn| == |s.conn|
            && forall k :: 0 <= k < |s.conn| ==>
                 && t.conn[k].valid == (s.conn[k].valid && s.conn[k].caddr != caddr)
                 && t.conn[k].(valid := s.conn[k].valid) == s.conn[k]
  {
  }

  lemma StepWellFormed(s: State, e: Event)
    requires s.WellFormed()
    ensures Step(s, e).WellFormed()
  {
  }

  // ---- Whole captures ----

  /** The state after a capture. */
  function After(hist: seq<Event>): State {
    if hist == [] then Init() else Step(After(hist[..|hist| - 1]), hist[|hist| - 1])
  }

  lemma {:induction false} AfterWellFormed(hist: seq<Event>)
    ensures After(hist).WellFormed()
  {
    if hist != [] {
      AfterWellFormed(hist[..|hist| - 1]);
      StepWellFormed(After(hist[..|hist| - 1]), hist[|hist| - 1]);
    }
  }

  predicate IsQuery(e: Event) { e.Data? && e.lesson.Query? }

  predicate IsAnswer(e: Event, lsap: byte) { e.Data? && e.lesson == Answer(lsap) }

  predicate IsLesson(e: Event) { e.Data? && e.lesson != NoLesson }

  /** The flags of the latest query in a capture. */
  function LatestFlags(hist: seq<Event>): Flags {
    if hist == [] then NO_FLAGS
    else
      var last := hist[|hist| - 1];
      if IsQuery(last) then last.lesson.flags else LatestFlags(hist[..|hist| - 1])
  }

  /** Since the latest query, an integer answer has named an LSAP, and it was the last to do so. */
  ghost predicate Named(hist: seq<Event>, lsap: byte) {
    exists k :: NamedAt(hist, lsap, k)
  }

  ghost predicate NamedAt(hist: seq<Event>, lsap: byte, k: int) {
    0 <= k < |hist| && IsAnswer(hist[k], lsap) && forall j :: k < j < |hist| ==> !IsLesson(hist[j])
  }

  ghost predicate Untaught(hist: seq<Event>) {
    forall j :: 0 <= j < |hist| ==> !IsLesson(hist[j])
  }

  lemma {:induction false} FlagsOfLatestQuery(hist: seq<Event>)
    ensures After(hist).ias.flags == LatestFlags(hist)
  {
    if hist != [] {
      FlagsOfLatestQuery(hist[..|hist| - 1]);
    }
  }

  /** The LSAP that is remembered was named by the latest lesson, except before any lesson: then it is 0. */
  lemma {:induction false} LearnedWasNamed(hist: seq<Event>, lsap: byte)
    requires lsap != LSAP_ANY
    ensures After(hist).ias.lsapSel == lsap <==> Named(hist, lsap) || (Untaught(hist) && lsap == 0)
  {
    if hist != [] {
      var init, last := hist[..|hist| - 1], hist[|hist| - 1];
      LearnedWasNamed(init, lsap);
      NamedStep(hist, lsap);
    }
  }

  lemma NamedStep(hist: seq<Event>, lsap: byte)
    requires hist != []
    ensures var init, last := hist[..|hist| - 1], hist[|hist| - 1];
            && (Untaught(hist) <==> !IsLesson(last) && Untaught(init))
            && (Named(hist, lsap) <==> IsAnswer(last, lsap) || (!IsLesson(last) && Named(init, lsap)))
  {
    var init, last := hist[..|hist| - 1], hist[|hist| - 1];
    assert hist == init + [last];
    hide IsAnswer, IsLesson;
    if Named(hist, lsap) {
      var k :| NamedAt(hist, lsap, k);
      if k < |init| {
        assert !IsLesson(hist[|hist| - 1]);
        assert NamedAt(init, lsap, k);
      }
    }
    if IsAnswer(last, lsap) {
      assert NamedAt(hist, lsap, |init|);
    } else if !IsLesson(last) && Named(init, lsap) {
      var k :| NamedAt(init, lsap, k);
      assert NamedAt(hist, lsap, k);
    }
    UntaughtStep(hist);
  }

  lemma UntaughtStep(hist: seq<Event>)
    requires hist != []
    ensures Untaught(hist) <==> !IsLesson(hist[|hist| - 1]) && Untaught(hist[..|hist| - 1])
  {
    var init := hist[..|hist| - 1];
    assert forall j :: 0 <= j < |init| ==> init[j] == hist[j];
    assert Untaught(hist) ==> !IsLesson(hist[|hist| - 1]);
  }

  // ---- Where a connection's flags come from ----

  /** The frame that last registered a connection in a slot; -1 if none did. */
  function Born(hist: seq<Event>, i: int): (b: int)
    ensures -1 <= b < |hist|
  {
    if hist == [] then -1
    else
      var init := hist[..|hist| - 1];
      if i >= 0 && Registers(After(init), hist[|hist| - 1]) == i then |init| else Born(init, i)
  }

  ghost predicate SlotOf(slot: Slot, hist: seq<Event>, b: nat)
    requires b < |hist|
  {
    var e := hist[b];
    && e.Connect?
    && slot.pair == e.pair && slot.caddr == e.caddr
    && slot.flags == LatestFlags(hist[..b])
    && After(hist[..b]).ias.lsapSel == e.dlsap
  }

  /** A slot in use is as the request that registered it left it, whatever was queried later. */
  lemma {:induction false} SlotOrigin(hist: seq<Event>, i: nat)
    requires i < MAX_CONNECTIONS
    ensures After(hist).WellFormed()
    ensures After(hist).conn[i].valid ==> Born(hist, i) >= 0
    ensures Born(hist, i) >= 0 ==> SlotOf(After(hist).conn[i], hist, Born(hist, i))
  {
    AfterWellFormed(hist);
    if hist != [] {
      var init, last := hist[..|hist| - 1], hist[|hist| - 1];
      AfterWellFormed(init);
      SlotOrigin(init, i);
      FlagsOfLatestQuery(init);
      SlotKept(After(init), last, i);
      var b := Born(init, i);
      if b >= 0 {
        assert init[..b] == hist[..b] && init[b] == hist[b];
      }
    }
  }

  /** A frame that does not register a connection in a slot can only invalidate it. */
  lemma SlotKept(s: State, e: Event, i: nat)
    requires s.WellFormed() && i < MAX_CONNECTIONS
    ensures Step(s, e).WellFormed()
    ensures Registers(s, e) != i ==> Step(s, e).conn[i].(valid := false) == s.conn[i].(valid := false)
    ensures Registers(s, e) != i && Step(s, e).conn[i].valid ==> s.conn[i].valid
    ensures Registers(s, e) == i ==>
              e.Connect? && e.dlsap == s.ias.lsapSel && Step(s, e).conn[i] == Slot(true, e.pair, e.caddr, s.ias.flags)
  {
  }

  /**
   A connection in the table carries the flags of the latest query before its request, and since
   then an integer answer has named its LSAP. The one exception is a connection to LSAP 0 that was
   requested before anything was learned.
   */
  lemma ConnectionWasAnnounced(hist: seq<Event>, i: nat)
    requires i < MAX_CONNECTIONS && After(hist).WellFormed() && After(hist).conn[i].valid
    requires forall k :: 0 <= k < |hist| && hist[k].Connect? ==> hist[k].dlsap < 0x80
    ensures var b := Born(hist, i);
            && 0 <= b && SlotOf(After(hist).conn[i], hist, b)
            && (Named(hist[..b], hist[b].dlsap) <==> !(hist[b].dlsap == 0 && Untaught(hist[..b])))
  {
    SlotOrigin(hist, i);
    var b := Born(hist, i);
    LearnedWasNamed(hist[..b], hist[b].dlsap);
    if Named(hist[..b], hist[b].dlsap) {
      var k :| NamedAt(hist[..b], hist[b].dlsap, k);
      assert IsLesson(hist[..b][k]);
    }
  }

  /** The exception is real: the first frame of a capture can be such a request. */
  lemma UnannouncedConnection()
    ensures var hist := [Connect(2, 0, Pair(5, 0))];
            After(hist).WellFormed() && After(hist).conn[0].valid && !Named(hist[..0], 0)
  {
    var hist := [Connect(2, 0, Pair(5, 0))];
    assert hist[..0] == [];
    assert After(hist) == Step(Init(), hist[0]);
  }

  // ---- Where frames are filed ----

  /** No slot in use comes after a slot, in use or not, with the same pair. */
  ghost predicate Leading(s: State) {
    forall j, k :: 0 <= j < k < |s.conn| && s.conn[k].valid ==> s.conn[j].pair != s.conn[k].pair
  }

  /** The cache does not hide a slot in use behind another one with the same pair. */
  ghost predicate Agrees(s: State) {
    forall k :: 0 <= k < |s.conn| && s.conn[k].valid && CacheHolds(s, s.conn[k].pair) ==> s.cache == k
  }

  /** A request does not repeat the pair of a connection that is still up. */
  ghost predicate NoDuplicate(s: State, e: Event) {
    Registers(s, e) >= 0 ==> forall k :: 0 <= k < |s.conn| && s.conn[k].valid ==> s.conn[k].pair != e.pair
  }

  /** A connection is registered while the cache still holds the pair's former slot, and not in that slot. */
  predicate StaleHit(s: State, e: Event) {
    Registers(s, e) >= 0 && CacheHolds(s, e.pair) && s.cache != Registers(s, e)
  }

  lemma StepKeepsLeading(s: State, e: Event)
    requires s.WellFormed() && Leading(s) && NoDuplicate(s, e)
    ensures Leading(Step(s, e))
  {
    var t := Step(s, e);
    forall j, k | 0 <= j < k < |t.conn| && t.conn[k].valid
      ensures t.conn[j].pair != t.conn[k].pair
    {
      if Registers(s, e) == k {
        assert s.conn[j].valid;
      } else if Registers(s, e) == j {
        assert s.conn[k].valid;
      } else {
        SlotKept(s, e, j);
        SlotKept(s, e, k);
      }
    }
  }

  /** A connection's frames are filed in its slot if and only if the cache does not send them elsewhere. */
  lemma ResolvesIff(s: State, k: nat)
    requires s.WellFormed() && Leading(s) && k < MAX_CONNECTIONS && s.conn[k].valid
    ensures Resolve(s, s.conn[k].pair) == k <==> !(CacheHolds(s, s.conn[k].pair) && s.cache != k)
  {
  }

  /** The cache goes wrong with exactly one kind of frame. */
  lemma StepAgreesIff(s: State, e: Event)
    requires s.WellFormed() && Leading(s) && NoDuplicate(s, e) && Agrees(s)
    ensures Agrees(Step(s, e)) <==> !StaleHit(s, e)
  {
    StepKeepsLeading(s, e);
    var t := Step(s, e);
    if StaleHit(s, e) {
      assert t.conn[Registers(s, e)].valid && CacheHolds(t, e.pair);
    } else {
      forall k | 0 <= k < |t.conn| && t.conn[k].valid && CacheHolds(t, t.conn[k].pair)
        ensures t.cache == k
      {
        SlotKept(s, e, k);
        if 0 <= s.cache < MAX_CONNECTIONS {
          SlotKept(s, e, s.cache);
        }
      }
    }
  }

  /** A frame of any pair that the cache does not hold puts it right again. */
  lemma LookupCures(s: State, p: Pair)
    requires s.WellFormed() && Leading(s) && !CacheHolds(s, p)
    ensures Agrees(Lookup(s, p))
  {
  }

  /** A capture without duplicate requests. */
  ghost predicate Unrepeated(hist: seq<Event>) {
    forall n :: 0 <= n < |hist| ==> NoDuplicate(After(hist[..n]), hist[n])
  }

  /** A capture without duplicate requests in which no request meets its pair's former slot in the cache. */
  ghost predicate Careful(hist: seq<Event>) {
    Unrepeated(hist) && forall n :: 0 <= n < |hist| ==> !StaleHit(After(hist[..n]), hist[n])
  }

  /** Every connection's frames are filed in its slot. */
  ghost predicate AllFound(s: State) {
    forall k :: 0 <= k < |s.conn| && s.conn[k].valid ==> Resolve(s, s.conn[k].pair) == k
  }

  lemma AfterOneMore(hist: seq<Event>, n: nat)
    requires n < |hist|
    ensures After(hist[..n + 1]) == Step(After(hist[..n]), hist[n])
  {
    assert hist[..n + 1][..n] == hist[..n];
  }

  lemma {:induction false} UnrepeatedLeads(hist: seq<Event>, n: nat)
    requires Unrepeated(hist) && n <= |hist|
    ensures After(hist[..n]).WellFormed() && Leading(After(hist[..n]))
  {
    AfterWellFormed(hist[..n]);
    if n > 0 {
      UnrepeatedLeads(hist, n - 1);
      AfterOneMore(hist, n - 1);
      StepKeepsLeading(After(hist[..n - 1]), hist[n - 1]);
    }
  }

  lemma AgreesIsAllFound(s: State)
    requires s.WellFormed() && Leading(s)
    ensures Agrees(s) <==> AllFound(s)
  {
    forall k | 0 <= k < |s.conn| && s.conn[k].valid
      ensures Resolve(s, s.conn[k].pair) == k <==> !(CacheHolds(s, s.conn[k].pair) && s.cache != k)
    {
      ResolvesIff(s, k);
    }
  }

  lemma {:induction false} CarefulAgrees(hist: seq<Event>, n: nat)
    requires Careful(hist) && n <= |hist|
    ensures After(hist[..n]).WellFormed() && Leading(After(hist[..n])) && Agrees(After(hist[..n]))
  {
    UnrepeatedLeads(hist, n);
    if n > 0 {
      CarefulAgrees(hist, n - 1);
      AfterOneMore(hist, n - 1);
      StepAgreesIff(After(hist[..n - 1]), hist[n - 1]);
    }
  }

  /** Frames find their connections throughout a capture if and only if no request meets a stale cache. */
  lemma AlwaysFoundIff(hist: seq<Event>)
    requires Unrepeated(hist)
    ensures Careful(hist) <==> forall n :: 0 <= n <= |hist| ==> AllFound(After(hist[..n]))
  {
    if Careful(hist) {
      forall n | 0 <= n <= |hist|
        ensures AllFound(After(hist[..n]))
      {
        CarefulAgrees(hist, n);
        AgreesIsAllFound(After(hist[..n]));
      }
    }
    if forall n :: 0 <= n <= |hist| ==> AllFound(After(hist[..n])) {
      forall n | 0 <= n < |hist|
        ensures !StaleHit(After(hist[..n]), hist[n])
      {
        UnrepeatedLeads(hist, n);
        UnrepeatedLeads(hist, n + 1);
        AfterOneMore(hist, n);
        AgreesIsAllFound(After(hist[..n]));
        AgreesIsAllFound(After(hist[..n + 1]));
        StepAgreesIff(After(hist[..n]), hist[n]);
      }
    }
  }

  /**
   In a careful capture every frame of a connection is filed in the connection's slot, which therefore
   is the one that its DISCONNECT takes out of use.
   */
  lemma FramesFindTheirSlot(hist: seq<Event>, k: nat)
    requires Careful(hist) && k < MAX_CONNECTIONS
    ensures After(hist).WellFormed()
    ensures var s := After(hist);
            s.conn[k].valid ==>
              && Resolve(s, s.conn[k].pair) == k
              && Step(s, Disconnect(s.conn[k].pair)).conn == s.conn[k := s.conn[k].(valid := false)]
  {
    CarefulAgrees(hist, |hist|);
    assert hist[..|hist|] == hist;
    AgreesIsAllFound(After(hist));
    hide After, Careful, Agrees, Leading, Resolve;
  }

  /** Frames of one pair leave the connections of all others alone. */
  lemma OthersUntouched(s: State, e: Event, k: nat)
    requires s.WellFormed() && k < MAX_CONNECTIONS
    requires e.ConnectRsp? || e.Data? || ((e.Connect? || e.Disconnect?) && s.conn[k].valid && s.conn[k].pair != e.pair)
    ensures Step(s, e).WellFormed() && Step(s, e).conn[k] == s.conn[k]
  {
  }

  // ---- A capture in which the cache goes wrong ----

  const FIRST_PAIR := Pair(1, 5)
  const SECOND_PAIR := Pair(2, 5)
  const STALE: seq<Event> := [
    Data(Answer(5), Pair(9, 0)),
    Connect(2, 5, FIRST_PAIR),
    Connect(2, 5, SECOND_PAIR),
    Disconnect(FIRST_PAIR),
    Disconnect(SECOND_PAIR),
    Connect(2, 5, SECOND_PAIR)]

  const FREE := Slot(false, Pair(0, 0), 0, NO_FLAGS)
  const FIRST_USED := Slot(true, FIRST_PAIR, 2, NO_FLAGS)
  const SECOND_USED := Slot(true, SECOND_PAIR, 2, NO_FLAGS)

  /** A table in which at most the first two slots were ever used. */
  function Table(a: Slot, b: Slot): seq<Slot> {
    [a, b] + seq(MAX_CONNECTIONS - 2, _ => FREE)
  }

  lemma TableFacts(a: Slot, b: Slot, c: Slot, p: Pair)
    ensures var t := Table(a, b);
            && |t| == MAX_CONNECTIONS && t[0] == a && t[1] == b
            && t[0 := c] == Table(c, b) && t[1 := c] == Table(a, c)
            && (forall k :: 2 <= k < |t| ==> t[k] == FREE)
            && (!a.valid ==> FirstFree(t, 0) == 0) && (a.valid && !b.valid ==> FirstFree(t, 0) == 1)
            && (a.pair == p ==> First(t, p, 0) == 0) && (a.pair != p && b.pair == p ==> First(t, p, 0) == 1)
            && (a.pair != p && b.pair != p && p != FREE.pair ==> First(t, p, 0) == -1)
  {
    var t := Table(a, b);
    assert t[0 := c] == Table(c, b) && t[1 := c] == Table(a, c);
  }

  lemma StaleOpens()
    ensures After(STALE[..3]) == State(Ias(5, NO_FLAGS), Table(FIRST_USED, SECOND_USED), -1)
    ensures forall n :: 0 <= n < 3 ==> NoDuplicate(After(STALE[..n]), STALE[n])
  {
    assert After(STALE[..0]) == State(Ias(0, NO_FLAGS), Table(FREE, FREE), -1) by {
      assert STALE[..0] == [];
      assert Init().conn == Table(FREE, FREE);
    }
    hide Table, First, FirstFree, After;
    AfterOneMore(STALE, 0);
    AfterOneMore(STALE, 1);
    AfterOneMore(STALE, 2);
    TableFacts(FREE, FREE, FIRST_USED, Pair(9, 0));
    TableFacts(FIRST_USED, FREE, SECOND_USED, SECOND_PAIR);
    assert After(STALE[..1]) == State(Ias(5, NO_FLAGS), Table(FREE, FREE), -1);
    assert After(STALE[..2]) == State(Ias(5, NO_FLAGS), Table(FIRST_USED, FREE), -1);
  }

  lemma StaleCloses()
    ensures After(STALE[..5]) ==
            State(Ias(5, NO_FLAGS), Table(FIRST_USED.(valid := false), SECOND_USED.(valid := false)), 1)
    ensures forall n :: 3 <= n < 5 ==> NoDuplicate(After(STALE[..n]), STALE[n])
  {
    StaleOpens();
    hide Table, First, FirstFree, After;
    AfterOneMore(STALE, 3);
    AfterOneMore(STALE, 4);
    TableFacts(FIRST_USED, SECOND_USED, FIRST_USED.(valid := false), FIRST_PAIR);
    TableFacts(FIRST_USED.(valid := false), SECOND_USED, SECOND_USED.(valid := false), SECOND_PAIR);
    assert After(STALE[..4]) == State(Ias(5, NO_FLAGS), Table(FIRST_USED.(valid := false), SECOND_USED), 0);
  }

  /**
   Two connections are closed, the second is opened again and gets the slot of the first: its
   frames are still filed in its former slot, which is not in use, so they are not decoded.
   */
  lemma StaleCache()
    ensures Unrepeated(STALE)
    ensures var s := After(STALE);
            && s.WellFormed() && s.conn[0].valid && s.conn[0].pair == SECOND_PAIR
            && Resolve(s, SECOND_PAIR) == 1 && !s.conn[1].valid
  {
    StaleOpens();
    StaleCloses();
    hide Table, First, FirstFree, After;
    AfterOneMore(STALE, 5);
    assert STALE[..6] == STALE;
    TableFacts(FIRST_USED.(valid := false), SECOND_USED.(valid := false), SECOND_USED, SECOND_PAIR);
    TableFacts(SECOND_USED, SECOND_USED.(valid := false), FREE, SECOND_PAIR);
    assert NoDuplicate(After(STALE[..5]), STALE[5]);
    assert After(STALE) == State(Ias(5, NO_FLAGS), Table(SECOND_USED, SECOND_USED.(valid := false)), 1);
  }

  // ---- From octets to events ----

  const CONNECT_CMD: byte := 0x01
  const CONNECT_RSP: byte := 0x81
  const DISCONNECT: byte := 0x02
  const GET_INFO_BASE: byte := 0x01
  const GET_VALUE_BY_CLASS: byte := 0x04
  const IAS_SUCCESS: byte := 0x00
  const IAS_INTEGER: byte := 0x01

  const TINY_TP: seq<byte> := [84, 105, 110, 121, 84, 80]
  const OBEX: seq<byte> := [79, 66, 69, 88]
  const IR_COMM: seq<byte> := [73, 114, 67, 79, 77, 77]
  const IR_LPT: seq<byte> := [73, 114, 76, 80, 84]
  const IR_NET: seq<byte> := [73, 114, 78, 101, 116]

  /** How far the parser looks into the allocation behind the start of a frame. */
  const REACH := 600

  predicate OccursAt(s: seq<byte>, word: seq<byte>, i: int) {
    0 <= i <= |s| - |word| && s[i..i + |word|] == word
  }

  /** strstr. */
  predicate Mentions(s: seq<byte>, word: seq<byte>) {
    exists i :: 0 <= i <= |s| - |word| && OccursAt(s, word, i)
  }

  /** What the class and the attribute that are asked for say about a service. */
  function Service(class_: seq<byte>, attribute: seq<byte>): Flags {
    var name, attr := CString(class_), CString(attribute);
    Flags(Mentions(attr, TINY_TP), Mentions(name, OBEX),
          Mentions(name, IR_COMM) || Mentions(name, IR_LPT), Mentions(name, IR_NET))
  }

  /** A word stands somewhere in a text. */
  ghost predicate Contains(s: seq<byte>, word: seq<byte>) {
    exists before, after :: s == before + word + after
  }

  lemma MentionsIffContains(s: seq<byte>, word: seq<byte>)
    ensures Mentions(s, word) <==> Contains(s, word)
  {
    if Mentions(s, word) {
      var i :| 0 <= i <= |s| - |word| && OccursAt(s, word, i);
      assert s == s[..i] + word + s[i + |word|..];
    }
    if Contains(s, word) {
      var before, after :| s == before + word + after;
      SliceOfRight(before, word + after, 0, |word|);
      Associative(before, word, after);
      SliceOfLeft(word, after, 0, |word|);
      assert word[0..|word|] == word;
      assert OccursAt(s, word, |before|);
    }
  }

  /**
   A query asks for TinyTP when its attribute contains "TinyTP", and for OBEX, IrCOMM or IrNET when its
   class contains "OBEX", "IrCOMM" or "IrLPT", or "IrNet".
   */
  lemma ServiceIff(class_: seq<byte>, attribute: seq<byte>)
    requires 0 !in class_ && 0 !in attribute
    ensures Service(class_, attribute).ttp <==> Contains(attribute, [0x54, 0x69, 0x6e, 0x79, 0x54, 0x50])
    ensures Service(class_, attribute).obex <==> Contains(class_, [0x4f, 0x42, 0x45, 0x58])
    ensures Service(class_, attribute).ircomm <==>
            Contains(class_, [0x49, 0x72, 0x43, 0x4f, 0x4d, 0x4d]) || Contains(class_, [0x49, 0x72, 0x4c, 0x50, 0x54])
    ensures Service(class_, attribute).irnet <==> Contains(class_, [0x49, 0x72, 0x4e, 0x65, 0x74])
  {
    hide Mentions, Contains;
    CStringWhole(class_);
    CStringWhole(attribute);
    MentionsIffContains(attribute, TINY_TP);
    MentionsIffContains(class_, OBEX);
    MentionsIffContains(class_, IR_COMM);
    MentionsIffContains(class_, IR_LPT);
    MentionsIffContains(class_, IR_NET);
  }

  /** Octets from a zero on do not matter. */
  lemma ServiceOfStrings(class_: seq<byte>, attribute: seq<byte>)
    ensures 0 !in CString(class_) && 0 !in CString(attribute)
    ensures Service(class_, attribute) == Service(CString(class_), CString(attribute))
  {
    CStringEnds(class_);
    CStringEnds(attribute);
    CStringWhole(CString(class_));
    CStringWhole(CString(attribute));
  }

  /** `at` moves on by `n` unless fewer octets are left. */
  function Pulled(at: nat, len: nat, n: nat): nat { if n <= len then at + n else at }

  function CommandLesson(m: seq<byte>, at: nat): Lesson
    requires at <= 2 && |m| >= REACH
  {
    var op := m[at] % 0x80;
    if op == GET_INFO_BASE || op == GET_VALUE_BY_CLASS then
      var attrAt := at + 2 + m[at + 1] as int;
      var attrLen := m[attrAt] as int;
      Query(Service(m[at + 2..attrAt], m[attrAt + 1..attrAt + 1 + attrLen]))
    else NoLesson
  }

  function ResponseLesson(m: seq<byte>, at: nat, len: nat): Lesson
    requires at <= 2 && |m| >= REACH
  {
    var value := Pulled(at, len, 2);
    if m[at + 1] == IAS_SUCCESS && m[value + 4] == IAS_INTEGER then Answer(m[value + 8]) else NoLesson
  }

  datatype Frame = Frame(dlsap: byte, slsap: byte, event: Event)

  /** The pair that a frame is filed under: the LSAP of this side comes first, whichever way the frame goes. */
  function PairOf(dlsap: byte, slsap: byte, outgoing: bool): Pair {
    if outgoing then Pair(slsap, dlsap) else Pair(dlsap, slsap)
  }

  function ControlEvent(op: byte, caddr: byte, dlsap: byte, pair: Pair): (e: Event)
    ensures !e.Data?
  {
    if op == CONNECT_CMD then Connect(caddr, dlsap, pair)
    else if op == CONNECT_RSP then ConnectRsp(pair)
    else if op == DISCONNECT then Disconnect(pair)
    else Other
  }

  /**
   A frame of `len` octets at the front of `m`; what lies behind it matters only when the frame is
   too short for what it says it is. The value of an integer answer is cut down to an octet.
   */
  function Decode(m: seq<byte>, len: nat, caddr: byte, outgoing: bool): Frame
    requires |m| >= REACH
  {
    var dlsap, slsap := m[0] % 0x80, m[1];
    var pair := PairOf(dlsap, slsap, outgoing);
    var at := Pulled(0, len, 2);
    var event :=
      if m[0] >= 0x80 then
        ControlEvent(m[at], caddr, dlsap, pair)
      else if dlsap == 0 then Data(CommandLesson(m, at), pair)
      else if slsap == 0 then Data(ResponseLesson(m, at, len - at), pair)
      else Data(NoLesson, pair);
    Frame(dlsap, slsap, event)
  }

  predicate Files(e: Event, p: Pair) {
    (e.Connect? || e.ConnectRsp? || e.Disconnect? || e.Data?) ==> e.pair == p
  }

  /**
   A frame and its answer, which has the LSAPs exchanged and goes the other way, are filed under the
   same pair, as long as the bit next to the source LSAP, which is not masked, is clear.
   */
  lemma BothDirections(m: seq<byte>, len: nat, reply: seq<byte>, replyLen: nat, caddr: byte, outgoing: bool)
    requires |m| >= REACH && |reply| >= REACH && m[1] < 0x80 && reply[1] < 0x80
    requires reply[0] % 0x80 == m[1] && reply[1] == m[0] % 0x80
    ensures Files(Decode(m, len, caddr, outgoing).event, PairOf(m[0] % 0x80, m[1], outgoing))
    ensures Files(Decode(reply, replyLen, caddr, !outgoing).event, PairOf(m[0] % 0x80, m[1], outgoing))
  {
    hide CommandLesson, ResponseLesson;
  }

  /** Two frames that go opposite ways have the same pair if and only if their LSAPs are exchanged. */
  lemma PairsMeetIff(dlsap: byte, slsap: byte, dlsap': byte, slsap': byte, outgoing: bool)
    ensures PairOf(dlsap, slsap, outgoing) == PairOf(dlsap', slsap', !outgoing) <==> dlsap == slsap' && slsap == dlsap'
  {
  }

  function QueryFrame(slsap: byte, name: seq<byte>, attr: seq<byte>): seq<byte>
    requires |name| < 256 && |attr| < 256
  {
    [0, slsap, 0x84, |name|] + name + [|attr|] + attr
  }

  function AnswerFrame(dlsap: byte, objectId: int, value: int): seq<byte>
    requires 0 < dlsap < 0x80 && 0 <= objectId < 0x1_0000 && 0 <= value < 0x1_0000_0000
  {
    [dlsap, 0, 0x84, IAS_SUCCESS] + (Be16(1) + (Be16(objectId) + ([IAS_INTEGER] + Be32(value))))
  }

  /** The event that a frame is, octet by octet. */
  lemma DecodeInOctets(m: seq<byte>, len: nat, caddr: byte, outgoing: bool)
    requires |m| >= REACH && len >= 4
    ensures var f := Decode(m, len, caddr, outgoing);
            var d, pair := m[0] % 0x80, if outgoing then Pair(m[1], m[0] % 0x80) else Pair(m[0] % 0x80, m[1]);
            && f.dlsap == d && f.slsap == m[1]
            && (m[0] >= 0x80 && m[2] == 0x01 ==> f.event == Connect(caddr, d, pair))
            && (m[0] >= 0x80 && m[2] == 0x81 ==> f.event == ConnectRsp(pair))
            && (m[0] >= 0x80 && m[2] == 0x02 ==> f.event == Disconnect(pair))
            && (m[0] >= 0x80 && m[2] !in {0x01, 0x02, 0x81} ==> f.event == Other)
            && (m[0] < 0x80 ==> f.event.Data? && f.event.pair == pair)
            && (m[0] < 0x80 && d == 0 ==>
                  if m[2] % 0x80 in {1, 4} then f.event.lesson.Query? else f.event.lesson == NoLesson)
            && (m[0] < 0x80 && d != 0 && m[1] == 0 ==>
                  f.event.lesson == if m[3] == 0 && m[8] == 1 then Answer(m[12]) else NoLesson)
            && (m[0] < 0x80 && d != 0 && m[1] != 0 ==> f.event.lesson == NoLesson)
  {
    hide Service;
  }

  /** Queries for four services, as they arrive: class "OBEX", "IrCOMM", "IrLPT" or "IrNet". */
  const QUERIES: seq<seq<byte>> := [
    [0, 9, 0x84, 4, 0x4f, 0x42, 0x45, 0x58, 6, 0x54, 0x69, 0x6e, 0x79, 0x54, 0x50],
    [0, 9, 0x84, 6, 0x49, 0x72, 0x43, 0x4f, 0x4d, 0x4d, 6, 0x54, 0x69, 0x6e, 0x79, 0x54, 0x50],
    [0, 9, 0x84, 5, 0x49, 0x72, 0x4c, 0x50, 0x54, 4, 0x4c, 0x73, 0x61, 0x70],
    [0, 9, 0x84, 5, 0x49, 0x72, 0x4e, 0x65, 0x74, 6, 0x54, 0x69, 0x6e, 0x79, 0x54, 0x50]]

  const TAUGHT: seq<Flags> := [
    Flags(true, true, false, false),
    Flags(true, false, true, false),
    Flags(false, false, true, false),
    Flags(true, false, false, true)]

  /** They teach the flags of their service and no others. */
  lemma QueriesTeach(k: nat, m: seq<byte>, caddr: byte)
    requires k < 4 && |m| >= REACH && QUERIES[k] <= m
    ensures Decode(m, |QUERIES[k]|, caddr, true).event == Data(Query(TAUGHT[k]), Pair(9, 0))
  {
    hide Service, Decode;
    var name, attr := [OBEX, IR_COMM, IR_LPT, IR_NET][k], if k == 2 then LSAP else TINY_TP;
    assert QUERIES[k] == QueryFrame(9, name, attr);
    ServicesTeach();
    DecodeQuery(m, 9, name, attr, caddr, true);
  }

  const LSAP: seq<byte> := [0x4c, 0x73, 0x61, 0x70]

  lemma ServicesTeach()
    ensures Service(OBEX, TINY_TP) == TAUGHT[0] && Service(IR_COMM, TINY_TP) == TAUGHT[1]
    ensures Service(IR_LPT, LSAP) == TAUGHT[2] && Service(IR_NET, TINY_TP) == TAUGHT[3]
  {
    CStringWhole(OBEX);
    CStringWhole(IR_COMM);
    CStringWhole(IR_LPT);
    CStringWhole(IR_NET);
    CStringWhole(TINY_TP);
    CStringWhole(LSAP);
    hide CString, Mentions;
    Present(TINY_TP);
    Present(OBEX);
    Present(IR_COMM);
    Present(IR_LPT);
    Present(IR_NET);
    TooLong(LSAP, TINY_TP);
    TooLong(OBEX, IR_COMM);
    TooLong(OBEX, IR_LPT);
    TooLong(OBEX, IR_NET);
    TooLong(IR_LPT, IR_COMM);
    TooLong(IR_NET, IR_COMM);
    Absent(IR_COMM, OBEX, 2);
    Absent(IR_COMM, IR_LPT, 2);
    Absent(IR_COMM, IR_NET, 2);
    Absent(IR_LPT, OBEX, 2);
    Absent(IR_LPT, IR_NET, 2);
    Absent(IR_NET, OBEX, 2);
    Absent(IR_NET, IR_LPT, 2);
  }

  lemma Present(s: seq<byte>)
    ensures Mentions(s, s)
  {
    assert OccursAt(s, s, 0);
  }

  lemma TooLong(s: seq<byte>, word: seq<byte>)
    requires |s| < |word|
    ensures !Mentions(s, word)
  {
  }

  /** A word does not stand where one of its octets is missing. */
  lemma Absent(s: seq<byte>, word: seq<byte>, j: nat)
    requires j < |word| && forall i :: j <= i <= |s| - |word| + j ==> s[i] != word[j]
    ensures !Mentions(s, word)
  {
    forall i | 0 <= i <= |s| - |word|
      ensures !OccursAt(s, word, i)
    {
      assert s[i..i + |word|][j] == s[i + j];
    }
  }

  /** A query and its answer are understood as what they were sent for. */
  lemma DecodeQuery(m: seq<byte>, slsap: byte, name: seq<byte>, attr: seq<byte>, caddr: byte, outgoing: bool)
    requires |name| < 256 && |attr| < 256 && |m| >= REACH && QueryFrame(slsap, name, attr) <= m
    ensures Decode(m, |QueryFrame(slsap, name, attr)|, caddr, outgoing).event ==
            Data(Query(Service(name, attr)), if outgoing then Pair(slsap, 0) else Pair(0, slsap))
  {
    var f := QueryFrame(slsap, name, attr);
    assert forall i :: 0 <= i < |f| ==> m[i] == f[i];
    var attrAt := 4 + |name|;
    assert m[4..attrAt] == name && m[attrAt] == |attr|;
    assert m[attrAt + 1..attrAt + 1 + |attr|] == attr;
  }

  lemma DecodeAnswer(m: seq<byte>, dlsap: byte, objectId: int, value: int, caddr: byte, outgoing: bool)
    requires 0 < dlsap < 0x80 && 0 <= objectId < 0x1_0000 && 0 <= value < 0x1_0000_0000
    requires |m| >= REACH && AnswerFrame(dlsap, objectId, value) <= m
    ensures Decode(m, |AnswerFrame(dlsap, objectId, value)|, caddr, outgoing).event ==
            Data(Answer(value % 256), if outgoing then Pair(0, dlsap) else Pair(dlsap, 0))
  {
    var f := AnswerFrame(dlsap, objectId, value);
    assert m[0] == f[0] && m[1] == f[1] && m[2] == f[2] && m[3] == f[3];
    assert m[8] == f[8] == IAS_INTEGER && m[12] == f[12] == Be32(value)[3];
    assert value % 0x1_0000 % 256 == value % 256;
  }

  /** An answer that comes in from LSAP 0 and names LSAP 5, and five control frames that go out. */
  const STALE_FRAMES: seq<seq<byte>> := [
    AnswerFrame(9, 1, 5),
    [0x85, 1, CONNECT_CMD, 0],
    [0x85, 2, CONNECT_CMD, 0],
    [0x85, 1, DISCONNECT, 1],
    [0x85, 2, DISCONNECT, 1],
    [0x85, 2, CONNECT_CMD, 0]]

  /** The capture in which the cache goes wrong is one of real frames, whatever lies behind them. */
  lemma StaleFromFrames(k: nat, m: seq<byte>)
    requires k < |STALE_FRAMES| && |m| >= REACH && STALE_FRAMES[k] <= m
    ensures |STALE_FRAMES| == |STALE|
    ensures Decode(m, |STALE_FRAMES[k]|, 2, k > 0).event == STALE[k]
  {
    if k == 0 {
      DecodeAnswer(m, 9, 1, 5, 2, false);
    } else {
      assert |STALE_FRAMES[k]| == 4;
      assert m[0] == STALE_FRAMES[k][0] && m[1] == STALE_FRAMES[k][1] && m[2] == STALE_FRAMES[k][2];
    }
  }

  /** So is the one in which a connection was not announced: a request for LSAP 0 that goes out. */
  lemma UnannouncedFrame(m: seq<byte>)
    requires |m| >= REACH && [0x80, 5, CONNECT_CMD, 0] <= m
    ensures Decode(m, 4, 2, true).event == Connect(2, 0, Pair(5, 0))
  {
    var f: seq<byte> := [0x80, 5, CONNECT_CMD, 0];
    assert m[0] == f[0] && m[1] == f[1] && m[2] == f[2];
  }

  // ---- What is decoded of a data frame ----

  datatype Layer = TtpConnect | TtpHeader | ObexFrame | IrCommData | IrCommRaw | IrNetFrame

  /** The protocols that a service's data is decoded as. */
  function LayersOf(f: Flags): seq<Layer> {
    (if f.ttp then [TtpHeader] else []) + (if f.obex then [ObexFrame] else []) +
    (if f.ircomm then [if f.ttp then IrCommData else IrCommRaw] else []) + (if f.irnet then [IrNetFrame] else [])
  }

  /** Every protocol is decoded exactly for the services that run on it, from the outside in. */
  lemma LayersIff(f: Flags)
    ensures TtpHeader in LayersOf(f) <==> f.ttp
    ensures ObexFrame in LayersOf(f) <==> f.obex
    ensures IrCommData in LayersOf(f) <==> f.ircomm && f.ttp
    ensures IrCommRaw in LayersOf(f) <==> f.ircomm && !f.ttp
    ensures IrNetFrame in LayersOf(f) <==> f.irnet
    ensures TtpConnect !in LayersOf(f)
  {
  }

  lemma LayersInOrder()
    ensures LayersOf(Flags(true, true, true, true)) == [TtpHeader, ObexFrame, IrCommData, IrNetFrame]
    ensures LayersOf(Flags(false, true, true, true)) == [ObexFrame, IrCommRaw, IrNetFrame]
  {
  }

  lemma ConnectLayersIff(f: Flags)
    ensures TtpConnect in ConnectLayersOf(f) <==> f.ttp
    ensures IrCommData in ConnectLayersOf(f) <==> f.ircomm
    ensures IrNetFrame in ConnectLayersOf(f) <==> f.irnet
    ensures ObexFrame !in ConnectLayersOf(f) && TtpHeader !in ConnectLayersOf(f) && IrCommRaw !in ConnectLayersOf(f)
    ensures ConnectLayersOf(Flags(true, true, true, true)) == [TtpConnect, IrCommData, IrNetFrame]
  {
  }

  /** The protocols that the data of a pair is decoded as; TTP can be presumed for unknown connections. */
  function Layers(s: State, p: Pair, ttpAnyway: bool): seq<Layer> {
    var i := Resolve(s, p);
    if 0 <= i < |s.conn| then if s.conn[i].valid then LayersOf(s.conn[i].flags) else []
    else if ttpAnyway then [TtpHeader] else []
  }

  /** The protocols whose parameters are looked for when a service is connected to. */
  function ConnectLayersOf(f: Flags): seq<Layer> {
    (if f.ttp then [TtpConnect] else []) + (if f.ircomm then [IrCommData] else []) +
    (if f.irnet then [IrNetFrame] else [])
  }

  function ForcedTtp(force: bool): seq<Layer> { if force then [TtpConnect] else [] }

  /** The protocols that a request for a connection is decoded as: none when the table is full. */
  function RequestLayers(s: State, dlsap: byte, forceTtp: bool): seq<Layer> {
    if dlsap == s.ias.lsapSel then if FirstFree(s.conn, 0) >= 0 then ConnectLayersOf(s.ias.flags) else []
    else ForcedTtp(forceTtp && dlsap != 0)
  }

  /** And the answer to it, for which it does not matter whether the slot is in use. */
  function AnswerLayers(s: State, p: Pair, slsap: byte, forceTtp: bool): seq<Layer> {
    var i := Resolve(s, p);
    if 0 <= i < |s.conn| then ConnectLayersOf(s.conn[i].flags) else ForcedTtp(forceTtp && slsap != 0)
  }

  /** The protocols that a frame is decoded as; TTP can be forced on frames that are no IAS frames. */
  function Decoded(s: State, f: Frame, forceTtp: bool): seq<Layer> {
    match f.event
    case Connect(_, dlsap, _) => RequestLayers(s, dlsap, forceTtp)
    case ConnectRsp(pair) => AnswerLayers(s, pair, f.slsap, forceTtp)
    case Data(_, pair) => Layers(s, pair, f.dlsap != 0 && f.slsap != 0 && forceTtp)
    case _ => []
  }

  /** TTP is presumed only where nothing is known, and never for the IAS. */
  lemma PresumedIff(s: State, p: Pair, lsap: byte, force: bool)
    ensures lsap != s.ias.lsapSel ==> RequestLayers(s, lsap, force) == if force && lsap != 0 then [TtpConnect] else []
    ensures lsap == s.ias.lsapSel && (forall k :: 0 <= k < |s.conn| ==> s.conn[k].valid) ==>
              RequestLayers(s, lsap, force) == []
    ensures lsap == s.ias.lsapSel && (exists k :: 0 <= k < |s.conn| && !s.conn[k].valid) ==>
              RequestLayers(s, lsap, force) == ConnectLayersOf(s.ias.flags)
    ensures (forall k :: 0 <= k < |s.conn| ==> s.conn[k].pair != p) ==>
              && AnswerLayers(s, p, lsap, force) == (if force && lsap != 0 then [TtpConnect] else [])
              && Layers(s, p, force) == (if force then [TtpHeader] else [])
    ensures var i := Resolve(s, p);
            0 <= i < |s.conn| ==>
              && AnswerLayers(s, p, lsap, force) == ConnectLayersOf(s.conn[i].flags)
              && Layers(s, p, force) == if s.conn[i].valid then LayersOf(s.conn[i].flags) else []
  {
  }

  /** Both halves of connecting to a service are decoded as what the query before the request asked for. */
  lemma ConnectIsDecodedAsAnnounced(hist: seq<Event>, request: Frame, answer: Frame, forceTtp: bool)
    requires request.event.Connect? && answer.event == ConnectRsp(request.event.pair)
    requires Registers(After(hist), request.event) >= 0 && Careful(hist + [request.event])
    ensures Decoded(After(hist), request, forceTtp) == ConnectLayersOf(LatestFlags(hist))
    ensures Decoded(After(hist + [request.event]), answer, forceTtp) == ConnectLayersOf(LatestFlags(hist))
  {
    var all, k := hist + [request.event], Registers(After(hist), request.event);
    assert all[..|all| - 1] == hist;
    AfterWellFormed(hist);
    FlagsOfLatestQuery(hist);
    SlotKept(After(hist), request.event, k);
    FramesFindTheirSlot(all, k);
    hide Careful, Step, Resolve, FirstFree;
  }

  /** The data of a connection is decoded as what the query before its request asked for. */
  lemma DataIsDecodedAsAnnounced(hist: seq<Event>, k: nat, f: Frame, forceTtp: bool)
    requires Careful(hist) && k < MAX_CONNECTIONS && After(hist).WellFormed() && After(hist).conn[k].valid
    requires f.event.Data? && f.event.pair == After(hist).conn[k].pair
    ensures Born(hist, k) >= 0
    ensures Decoded(After(hist), f, forceTtp) == LayersOf(LatestFlags(hist[..Born(hist, k)]))
  {
    FramesFindTheirSlot(hist, k);
    SlotOrigin(hist, k);
  }

  // ---- The tracker ----

  class Tracker {
    var ias: Ias
    var cache: int
    const conn: array<Slot>

    ghost predicate Valid()
      reads this
    {
      conn.Length == MAX_CONNECTIONS && -1 <= cache < MAX_CONNECTIONS
    }

    ghost function Now(): State
      reads this, conn
    {
      State(ias, conn[..], cache)
    }

    constructor ()
      ensures Valid() && Now() == Init() && fresh(conn)
    {
      ias, cache := Ias(0, NO_FLAGS), -1;
      conn := new Slot[MAX_CONNECTIONS](_ => Slot(false, Pair(0, 0), 0, NO_FLAGS));
    }

    /** Files a pair: the cache first, then all slots in order, in use or not. */
    method FindConnection(p: Pair) returns (i: int)
      requires Valid()
      modifies this`cache
      ensures Valid() && i == Resolve(old(Now()), p) && Now() == Lookup(old(Now()), p)
    {
      if cache != -1 {
        if conn[cache].pair == p {
          return cache;
        }
      }
      i := 0;
      while i < MAX_CONNECTIONS
        invariant 0 <= i <= MAX_CONNECTIONS && First(conn[..], p, 0) == First(conn[..], p, i)
        invariant cache == old(cache)
      {
        if conn[i].pair == p {
          cache := i;
          return i;
        }
        i := i + 1;
      }
      cache := -1;
      return -1;
    }

    method FindFreeConnection() returns (i: int)
      requires Valid()
      ensures i == FirstFree(conn[..], 0)
    {
      i := 0;
      while i < MAX_CONNECTIONS
        invariant 0 <= i <= MAX_CONNECTIONS && FirstFree(conn[..], 0) == FirstFree(conn[..], i)
      {
        if !conn[i].valid {
          return i;
        }
        i := i + 1;
      }
      return -1;
    }

    method GarbageConnection(caddr: byte)
      requires Valid()
      modifies conn
      ensures Now() == Step(old(Now()), LinkDown(caddr))
      ensures forall k :: 0 <= k < conn.Length ==>
                conn[k] == if old(conn[k].caddr) == caddr then old(conn[k]).(valid := false) else old(conn[k])
    {
      for i := 0 to MAX_CONNECTIONS
        invariant forall k :: 0 <= k < i ==>
                    conn[k] == if old(conn[k]).caddr == caddr then old(conn[k]).(valid := false) else old(conn[k])
        invariant forall k :: i <= k < MAX_CONNECTIONS ==> conn[k] == old(conn[k])
      {
        if conn[i].caddr == caddr {
          conn[i] := conn[i].(valid := false);
        }
      }
    }

    /** A request for a connection. */
    method Register(caddr: byte, dlsap: byte, pair: Pair, forceTtp: bool) returns (layers: seq<Layer>)
      requires Valid()
      modifies conn
      ensures Valid() && Now() == Step(old(Now()), Connect(caddr, dlsap, pair))
      ensures layers == RequestLayers(old(Now()), dlsap, forceTtp)
    {
      if dlsap == ias.lsapSel {
        var i := FindFreeConnection();
        if i == -1 {
          return [];
        }
        conn[i] := Slot(true, pair, caddr, ias.flags);
        return ConnectLayersOf(conn[i].flags);
      }
      return ForcedTtp(forceTtp && dlsap != 0);
    }

    /** The answer to a request. */
    method Answered(pair: Pair, slsap: byte, forceTtp: bool) returns (layers: seq<Layer>)
      requires Valid()
      modifies this`cache
      ensures Valid() && Now() == Step(old(Now()), ConnectRsp(pair))
      ensures layers == AnswerLayers(old(Now()), pair, slsap, forceTtp)
    {
      var i := FindConnection(pair);
      if i != -1 {
        return ConnectLayersOf(conn[i].flags);
      }
      return ForcedTtp(forceTtp && slsap != 0);
    }

    method Close(pair: Pair)
      requires Valid()
      modifies this`cache, conn
      ensures Valid() && Now() == Step(old(Now()), Disconnect(pair))
    {
      var i := FindConnection(pair);
      if i != -1 {
        conn[i] := conn[i].(valid := false);
      }
    }

    /** The control frames. */
    method Control(op: byte, caddr: byte, dlsap: byte, slsap: byte, pair: Pair, forceTtp: bool)
        returns (layers: seq<Layer>)
      requires Valid()
      modifies this`cache, conn
      ensures var e := ControlEvent(op, caddr, dlsap, pair);
              && Valid() && Now() == Step(old(Now()), e)
              && layers == Decoded(old(Now()), Frame(dlsap, slsap, e), forceTtp)
    {
      hide Step, RequestLayers, AnswerLayers;
      layers := [];
      if op == CONNECT_CMD {
        layers := Register(caddr, dlsap, pair, forceTtp);
      } else if op == CONNECT_RSP {
        layers := Answered(pair, slsap, forceTtp);
      } else if op == DISCONNECT {
        Close(pair);
      } else {
        Ignored(Now());
      }
    }

    lemma Ignored(s: State)
      ensures Step(s, Other) == s
    {
    }

    /** The data frames, after their IAS part. */
    method FileData(lesson: Lesson, pair: Pair, ttpAnyway: bool) returns (layers: seq<Layer>)
      requires Valid()
      modifies this`ias, this`cache
      ensures Valid() && Now() == Step(old(Now()), Data(lesson, pair))
      ensures layers == Layers(old(Now()), pair, ttpAnyway)
    {
      ias := Learn(ias, lesson);
      layers := [];
      var i := FindConnection(pair);
      if i != -1 {
        if conn[i].valid {
          layers := LayersOf(conn[i].flags);
        }
      } else if ttpAnyway {
        layers := [TtpHeader];
      }
    }

    /** Deals with one IrLMP frame (parse_irlmp). */
    method ParseIrlmp(buf: NetBuf, caddr: byte, outgoing: bool, forceTtp: bool) returns (layers: seq<Layer>)
      requires Valid() && buf.Valid() && buf.data + REACH <= buf.mem.Length
      modifies this, conn, buf`data, buf`len
      ensures Valid() && buf.Valid()
      ensures var f := Decode(old(buf.mem[buf.data..]), old(buf.len), caddr, outgoing);
              Now() == Step(old(Now()), f.event) && layers == Decoded(old(Now()), f, forceTtp)
    {
      hide CommandLesson, ResponseLesson, Layers, RequestLayers, AnswerLayers, ControlEvent, Step;
      var m, at := buf.mem[buf.data..], Pulled(0, buf.len, 2);
      var len := buf.len - at;
      var control, dlsap, slsap := m[0] >= 0x80, m[0] % 0x80, m[1];
      var pair := PairOf(dlsap, slsap, outgoing);
      var _ := buf.Pull(2);
      layers := [];
      if control {
        layers := Control(m[at], caddr, dlsap, slsap, pair, forceTtp);
      } else if dlsap == 0 {
        layers := FileData(CommandLesson(m, at), pair, false);
      } else if slsap == 0 {
        layers := FileData(ResponseLesson(m, at, len), pair, false);
      } else {
        layers := FileData(NoLesson, pair, forceTtp);
      }
    }
  }
}
