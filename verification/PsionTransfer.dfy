/**
 The transfer itself (sendfile and handle_client of irpsion5.c): a request, an acknowledgement,
 then the file in chunks, over a connection that delivers every octet in order but in pieces of
 any size. Each system call of either side is one step; the two sides interleave freely.
 */
module PsionTransfer {
  import opened Bytes
  import opened PsionHeader

  const BUFLEN: nat := 2044
  const ACK_Y: Text := [65, 67, 75, 32, 89]

  /** What is sent. The request has to fit the sender's buffer, and the size 32 bits; a name is a C string. */
  datatype Job = Job(long: Long, file: seq<byte>, name: Text, writable: bool, mtime: int)
  {
    function Mode(): nat { if writable then 32 else 33 }

    function Header(): Text {
      PrintFile(|file|, Mode(), SentDate(mtime) / UINT, SentDate(mtime) % UINT, name)
    }

    predicate Sendable() {
      |file| < UINT && |Header()| < BUFLEN && name != [] && !IsSpace(name[0]) && 0 !in name
    }

    /** What the receiver should learn from the request. */
    function Request(): Request {
      FileRequest(|file|, Mode(), SentDate(mtime) / UINT, SentDate(mtime) % UINT, name)
    }

    predicate Describes(r: Request) { r == Request() }
  }

  datatype Sender = Greeting | AwaitAck | Sending | AwaitClose | Sent | SenderFailed
  datatype Receiver = AwaitRequest | Acking | Receiving | Received | ReceiverFailed

  datatype State = State(
    sender: Sender,
    unsent: seq<byte>,        // what is left to read of the file
    toReceiver: seq<byte>,    // written by the sender, not yet read
    toSender: seq<byte>,      // written by the receiver, not yet read
    receiver: Receiver,
    request: Request,         // as the receiver understood it
    headerRead: nat,          // how many octets the receiver took for the request
    received: seq<byte>,      // what the receiver has written to its file
    stamped: Option<nat>)     // the modification time the receiver gave its file

  function Start(job: Job): State {
    State(Greeting, job.file, [], [], AwaitRequest, BadRequest, 0, [], None)
  }

  datatype Action =
    | WriteHeader
    | ReadHeader(k: nat)
    | WriteAck
    | ReadAck(k: nat)
    | WriteChunk
    | ReadData(k: nat)
    | Finish
    | ReadClose

  function Size(r: Request): nat {
    match r
    case FileRequest(size, _, _, _, _) => size
    case DataRequest(size) => size
    case BadRequest => 0
  }

  /** The size of the next chunk: fread fills the buffer unless the file ends. */
  function Chunk(unsent: seq<byte>): nat { if |unsent| < BUFLEN then |unsent| else BUFLEN }

  /** A read gets some of what is there, at most a buffer full. */
  predicate Readable(wire: seq<byte>, k: nat, limit: nat) { 0 < k <= |wire| && k <= limit }

  predicate Enabled(s: State, a: Action) {
    match a
    case WriteHeader => s.sender == Greeting
    case ReadHeader(k) => s.receiver == AwaitRequest && Readable(s.toReceiver, k, BUFLEN)
    case WriteAck => s.receiver == Acking
    case ReadAck(k) => s.sender == AwaitAck && Readable(s.toSender, k, BUFLEN - 1)
    case WriteChunk => s.sender == Sending
    case ReadData(k) =>
      s.receiver == Receiving && |s.received| < Size(s.request) && Readable(s.toReceiver, k, BUFLEN)
    case Finish => s.receiver == Receiving && |s.received| >= Size(s.request)
    case ReadClose => s.sender == AwaitClose && s.receiver == Received
  }

  /** The receiver dates its file only by a request for a file, and only with a time that is not 0. */
  function Stamp(r: Request): Option<nat> {
    if r.FileRequest? && ReceivedDate(r.hi, r.lo) != 0 then Some(ReceivedDate(r.hi, r.lo)) else None
  }

  /** The receiver goes on when it has understood the request; no file can be opened without a name. */
  predicate Accepted(r: Request, k: nat) {
    k < BUFLEN && !r.BadRequest? && (r.FileRequest? ==> r.name != [])
  }

  function Step(job: Job, s: State, a: Action): State
    requires Enabled(s, a)
  {
    match a
    case WriteHeader => s.(sender := AwaitAck, toReceiver := s.toReceiver + job.Header())
    case ReadHeader(k) =>
      var request := ScanRequest(job.long, s.toReceiver[..k]);
      s.(receiver := if Accepted(request, k) then Acking else ReceiverFailed,
         request := request, headerRead := k, toReceiver := s.toReceiver[k..])
    case WriteAck => s.(receiver := Receiving, toSender := s.toSender + ACK_Y)
    case ReadAck(k) =>
      s.(sender := if s.toSender[..k] == ACK_Y then Sending else SenderFailed, toSender := s.toSender[k..])
    case WriteChunk =>
      var n := Chunk(s.unsent);
      if n == 0 then s.(sender := AwaitClose)
      else s.(toReceiver := s.toReceiver + s.unsent[..n], unsent := s.unsent[n..])
    case ReadData(k) => s.(received := s.received + s.toReceiver[..k], toReceiver := s.toReceiver[k..])
    case Finish => s.(receiver := Received, stamped := Stamp(s.request))
    case ReadClose => s.(sender := if s.toSender == [] then Sent else SenderFailed)
  }

  /** Who may read how much: 2044 octets, but 2043 for an acknowledgement, and a request has to be shorter. */
  lemma ReadsInNumbers(s: State, k: nat, r: Request, unsent: seq<byte>)
    ensures Enabled(s, ReadHeader(k)) <==> s.receiver == AwaitRequest && 0 < k <= |s.toReceiver| && k <= 2044
    ensures Enabled(s, ReadAck(k)) <==> s.sender == AwaitAck && 0 < k <= |s.toSender| && k <= 2043
    ensures Enabled(s, ReadData(k)) <==>
            s.receiver == Receiving && |s.received| < Size(s.request) && 0 < k <= |s.toReceiver| && k <= 2044
    ensures Accepted(r, k) ==> k < 2044
    ensures Chunk(unsent) == if |unsent| < 2044 then |unsent| else 2044
  {
  }

  /** The acknowledgement is "ACK Y", and nothing else is taken for it. */
  lemma AckInOctets(job: Job, s: State, k: nat)
    ensures Enabled(s, WriteAck) ==> Step(job, s, WriteAck).toSender == s.toSender + [0x41, 0x43, 0x4b, 0x20, 0x59]
    ensures Enabled(s, ReadAck(k)) ==>
              (Step(job, s, ReadAck(k)).sender == Sending <==> s.toSender[..k] == [0x41, 0x43, 0x4b, 0x20, 0x59])
  {
  }

  /** The request for a file, as it is sent: the mode is 32, and 33 when the file cannot be written. */
  lemma HeaderInOctets(job: Job)
    requires |job.file| == 55175 && job.mtime == 923950076 && job.name == [68, 97, 116, 97] && job.writable
    ensures job.Header() == SAMPLE && job.Mode() == 32 && job.(writable := false).Mode() == 33
  {
    SampleRequest(job.long);
    hide PrintFile, SentDate, ScanRequest;
    assert (14689800 * 0x1_0000_0000 + 2691219200) / UINT == 14689800;
    assert (14689800 * 0x1_0000_0000 + 2691219200) % UINT == 2691219200;
  }

  ghost predicate Run(job: Job, states: seq<State>, actions: seq<Action>) {
    && |states| == |actions| + 1
    && states[0] == Start(job)
    && forall i :: 0 <= i < |actions| ==>
         Enabled(states[i], actions[i]) && states[i + 1] == Step(job, states[i], actions[i])
  }

  lemma RunStart(job: Job, states: seq<State>, actions: seq<Action>)
    requires Run(job, states, actions)
    ensures |states| == |actions| + 1 && states[0] == Start(job)
  {
  }

  lemma RunStep(job: Job, states: seq<State>, actions: seq<Action>, i: nat)
    requires Run(job, states, actions) && i < |actions|
    ensures |states| == |actions| + 1
    ensures Enabled(states[i], actions[i]) && states[i + 1] == Step(job, states[i], actions[i])
  {
    hide Enabled, Step, Start;
  }

  // ---- What every run keeps ----

  /**
   However the octets are delivered, what the receiver has written, what is on the way and what is
   not yet sent make up what followed the part of the request that the receiver read. Nothing of
   the file is on the way before the request has been read and acknowledged.
   */
  predicate Inv(job: Job, s: State) {
    && (s.sender == Greeting ==>
          s.receiver == AwaitRequest && s.toReceiver == [] && s.toSender == [])
    && (s.sender in {Greeting, AwaitAck} ==> s.unsent == job.file)
    && (s.sender in {AwaitClose, Sent} ==> s.unsent == [])
    && (s.receiver == AwaitRequest ==>
          && s.sender in {Greeting, AwaitAck} && s.received == [] && s.toSender == [] && s.stamped == None
          && (s.sender == AwaitAck ==> s.toReceiver == job.Header()))
    && (s.receiver != AwaitRequest ==>
          && s.headerRead <= |job.Header()|
          && s.request == ScanRequest(job.long, job.Header()[..s.headerRead])
          && s.received + (s.toReceiver + s.unsent) == job.Header()[s.headerRead..] + job.file)
    && (s.receiver in {Acking, ReceiverFailed} ==>
          s.sender == AwaitAck && s.received == [] && s.toSender == [] && s.stamped == None)
    && (s.receiver in {Acking, Receiving, Received} ==> Accepted(s.request, s.headerRead))
    && (s.receiver == ReceiverFailed ==> !Accepted(s.request, s.headerRead))
    && (s.receiver in {Receiving, Received} && s.sender == AwaitAck ==> s.toSender == ACK_Y)
    && (s.sender in {Sending, AwaitClose, Sent} ==> s.receiver in {Receiving, Received} && s.toSender == [])
    && (s.receiver == Receiving ==> s.stamped == None)
    && (s.receiver == Received ==> |s.received| >= Size(s.request) && s.stamped == Stamp(s.request))
  }

  lemma WriteHeaderKeepsInv(job: Job, s: State)
    requires Inv(job, s) && Enabled(s, WriteHeader)
    ensures Inv(job, Step(job, s, WriteHeader))
  {
    hide PrintFile;
    assert Step(job, s, WriteHeader).toReceiver == job.Header();
  }

  lemma ReadHeaderKeepsInv(job: Job, s: State, k: nat)
    requires Inv(job, s) && Enabled(s, ReadHeader(k))
    ensures Inv(job, Step(job, s, ReadHeader(k)))
  {
    hide PrintFile, ScanRequest;
    var t := Step(job, s, ReadHeader(k));
    assert t.received + (t.toReceiver + t.unsent) == t.toReceiver + t.unsent;
  }

  lemma AckKeepsInv(job: Job, s: State, a: Action)
    requires Inv(job, s) && Enabled(s, a) && (a.WriteAck? || a.ReadAck? || a.Finish? || a.ReadClose?)
    ensures Inv(job, Step(job, s, a))
  {
    hide PrintFile, ScanRequest, Stamp, Job.Header;
    if a.ReadAck? {
      assert s.toSender[..a.k] == ACK_Y ==> s.toSender[a.k..] == [];
    } else if a.WriteAck? {
      assert s.toSender + ACK_Y == ACK_Y;
    }
  }

  lemma WriteChunkKeepsInv(job: Job, s: State)
    requires Inv(job, s) && Enabled(s, WriteChunk)
    ensures Inv(job, Step(job, s, WriteChunk))
  {
    hide PrintFile, ScanRequest, Stamp;
    var n := Chunk(s.unsent);
    assert s.unsent == s.unsent[..n] + s.unsent[n..];
    Associative(s.toReceiver, s.unsent[..n], s.unsent[n..]);
  }

  lemma ReadDataKeepsInv(job: Job, s: State, k: nat)
    requires Inv(job, s) && Enabled(s, ReadData(k))
    ensures Inv(job, Step(job, s, ReadData(k)))
  {
    hide PrintFile, ScanRequest, Stamp;
    var first, rest := s.toReceiver[..k], s.toReceiver[k..];
    assert s.toReceiver == first + rest;
    Associative(first, rest, s.unsent);
    Associative(s.received, first, rest + s.unsent);
  }

  lemma StepKeepsInv(job: Job, s: State, a: Action)
    requires Inv(job, s) && Enabled(s, a)
    ensures Inv(job, Step(job, s, a))
  {
    hide Inv, Step;
    match a
    case WriteHeader => WriteHeaderKeepsInv(job, s);
    case ReadHeader(k) => ReadHeaderKeepsInv(job, s, k);
    case WriteChunk => WriteChunkKeepsInv(job, s);
    case ReadData(k) => ReadDataKeepsInv(job, s, k);
    case _ => AckKeepsInv(job, s, a);
  }

  lemma StartInv(job: Job)
    ensures Inv(job, Start(job))
  {
    hide PrintFile, ScanRequest;
  }

  /** Every state of every run keeps the invariant. */
  lemma {:induction false} RunKeepsInv(job: Job, states: seq<State>, actions: seq<Action>, i: nat)
    requires Run(job, states, actions) && i < |states|
    ensures Inv(job, states[i])
  {
    hide Run, Enabled, Step, Inv;
    RunStart(job, states, actions);
    StartInv(job);
    if i > 0 {
      RunStep(job, states, actions, i - 1);
      RunKeepsInv(job, states, actions, i - 1);
      StepKeepsInv(job, states[i - 1], actions[i - 1]);
    }
  }

  // ---- What a finished transfer has achieved ----

  /** The receiver has the file, its name and its date. */
  predicate Delivered(job: Job, s: State) {
    && s.received == job.file
    && job.Describes(s.request)
    && s.stamped == if job.mtime % UINT == 0 then None else Some(job.mtime % UINT)
  }

  /**
   A receiver that is done has what was sent if and only if its first read got the whole request.
   Then it has not taken an octet too many or too few.
   */
  lemma DeliveredIffWhole(job: Job, s: State)
    requires job.Sendable() && Inv(job, s) && s.receiver == Received
    ensures Delivered(job, s) <==> s.headerRead == |job.Header()|
    ensures s.headerRead == |job.Header()| ==> s.toReceiver == [] && s.unsent == []
  {
    var h := job.Header();
    if s.headerRead == |h| {
      HeaderScans(job);
      hide Job.Header, ScanRequest, ReceivedDate, SentDate, IsSpace;
      assert h[..s.headerRead] == h;
      assert h[s.headerRead..] + job.file == job.file;
      assert |s.received| + (|s.toReceiver| + |s.unsent|) == |job.file|;
      assert s.toReceiver == [] && s.unsent == [];
      assert s.received + ([] + []) == s.received;
    } else {
      HeaderCut(job, s.headerRead);
      hide Job.Header, ScanRequest, ReceivedDate, SentDate, IsSpace;
    }
  }

  /** The receiver understands the whole request, and dates the file with the sender's time. */
  lemma HeaderScans(job: Job)
    requires job.Sendable()
    ensures job.Describes(ScanRequest(job.long, job.Header()))
    ensures Stamp(ScanRequest(job.long, job.Header())) ==
            if job.mtime % UINT == 0 then None else Some(job.mtime % UINT)
  {
    DateSurvives(job.mtime);
    hide PrintFile, ScanRequest, IsSpace, SentDate, ReceivedDate;
    var hi, lo := SentDate(job.mtime) / UINT, SentDate(job.mtime) % UINT;
    ScanOrdinaryFile(job.long, |job.file|, job.Mode(), hi, lo, job.name);
  }

  lemma HeaderCut(job: Job, k: nat)
    requires job.Sendable() && k < |job.Header()|
    ensures !job.Describes(ScanRequest(job.long, job.Header()[..k]))
  {
    DateSurvives(job.mtime);
    hide PrintFile, ScanRequest, IsSpace, SentDate, ReceivedDate;
    CutFile(job.long, |job.file|, job.Mode(), SentDate(job.mtime) / UINT, SentDate(job.mtime) % UINT, job.name, k);
  }

  // ---- No transfer gets stuck ----

  function SenderRank(job: Job, s: Sender): nat {
    match s
    case Greeting => |job.Header()| + 4
    case AwaitAck => 3
    case Sending => 2
    case AwaitClose => 1
    case _ => 0
  }

  function ReceiverRank(r: Receiver): nat {
    match r
    case AwaitRequest => 8
    case Acking => 7
    case Receiving => 1
    case _ => 0
  }

  function Measure(job: Job, s: State): nat {
    2 * |s.unsent| + |s.toReceiver| + |s.toSender| + SenderRank(job, s.sender) + ReceiverRank(s.receiver)
  }

  /** Every step uses up something: no run goes on for ever. */
  lemma StepDecreases(job: Job, s: State, a: Action)
    requires Inv(job, s) && Enabled(s, a)
    ensures Measure(job, Step(job, s, a)) < Measure(job, s)
  {
    hide PrintFile, ScanRequest, Stamp;
    assert a.WriteChunk? && Chunk(s.unsent) == 0 ==> s.unsent == [];
  }

  /** A read that is not repeated gets all there is to get: the request, or the acknowledgement. */
  predicate GetsAll(job: Job, a: Action) {
    (a.ReadHeader? ==> a.k == |job.Header()|) && (a.ReadAck? ==> a.k == |ACK_Y|)
  }

  /** Both did. */
  predicate Whole(job: Job, s: State) {
    (s.receiver != AwaitRequest ==> s.headerRead == |job.Header()|) && s.sender != SenderFailed
  }

  lemma WholeStep(job: Job, s: State, a: Action)
    requires Inv(job, s) && Enabled(s, a)
    ensures Whole(job, Step(job, s, a)) <==> Whole(job, s) && GetsAll(job, a)
  {
    hide Job.Header, ScanRequest, Stamp;
    if a.ReadAck? {
      assert s.toSender == ACK_Y;
      assert s.toSender[..a.k] == ACK_Y <==> a.k == |ACK_Y|;
    }
  }

  /** What the two reads got shows in the state. */
  lemma {:induction false} WholeIsGetsAll(job: Job, states: seq<State>, actions: seq<Action>, i: nat)
    requires Run(job, states, actions) && i < |states|
    ensures Whole(job, states[i]) <==> forall j :: 0 <= j < i ==> j < |actions| && GetsAll(job, actions[j])
  {
    hide Run, Enabled, Step, Inv, GetsAll;
    RunStart(job, states, actions);
    if i > 0 {
      RunStep(job, states, actions, i - 1);
      RunKeepsInv(job, states, actions, i - 1);
      WholeIsGetsAll(job, states, actions, i - 1);
      WholeStep(job, states[i - 1], actions[i - 1]);
    }
  }

  /** A transfer that can go no further is complete, on both sides. */
  lemma StopsWhenDone(job: Job, s: State)
    requires job.Sendable() && Inv(job, s) && Whole(job, s)
    requires forall a :: !Enabled(s, a)
    ensures s.sender == Sent && s.receiver == Received && Delivered(job, s)
  {
    Blocked(s);
    hide Job.Header, ScanRequest, Stamp, Delivered, Enabled, Accepted;
    HeaderNonEmpty(job);
    assert s.receiver != AwaitRequest;
    WholeIsAccepted(job, s);
    assert s.receiver == Receiving ==> s.toReceiver == [] && |s.received| < |job.file|;
    if s.receiver == Receiving {
      DataArrives(job, s);
    }
    DeliveredIffWhole(job, s);
  }

  /** What it means that neither side can do anything. */
  lemma Blocked(s: State)
    requires forall a :: !Enabled(s, a)
    ensures s.sender !in {Greeting, Sending} && s.receiver != Acking
    ensures s.receiver == AwaitRequest ==> s.toReceiver == []
    ensures s.sender == AwaitAck ==> s.toSender == []
    ensures s.receiver == Receiving ==> |s.received| < Size(s.request) && s.toReceiver == []
    ensures s.receiver == Received ==> s.sender != AwaitClose
  {
    assert !Enabled(s, WriteHeader) && !Enabled(s, WriteAck) && !Enabled(s, WriteChunk);
    assert !Enabled(s, Finish) && !Enabled(s, ReadClose);
    assert !Enabled(s, ReadHeader(1)) && !Enabled(s, ReadAck(1)) && !Enabled(s, ReadData(1));
  }

  lemma HeaderNonEmpty(job: Job)
    ensures |job.Header()| > 0
  {
    hide Join, SentDate;
  }

  /** Once the sender has sent everything, the receiver has it or can read it. */
  lemma DataArrives(job: Job, s: State)
    requires Inv(job, s) && s.receiver == Receiving && s.sender in {AwaitClose, Sent}
    requires s.headerRead == |job.Header()|
    ensures |s.received| + |s.toReceiver| == |job.file|
  {
    hide Job.Header, ScanRequest, Stamp;
    assert |s.received + (s.toReceiver + s.unsent)| == |job.Header()[s.headerRead..] + job.file|;
  }

  /** A request that is read whole is accepted, with the size of the file. */
  lemma WholeIsAccepted(job: Job, s: State)
    requires job.Sendable() && Inv(job, s) && s.headerRead == |job.Header()| && s.receiver != AwaitRequest
    ensures s.request.FileRequest? && Size(s.request) == |job.file| && Accepted(s.request, s.headerRead)
  {
    HeaderScans(job);
    hide Job.Header, ScanRequest, ReceivedDate, SentDate, IsSpace;
    assert job.Header()[..s.headerRead] == job.Header();
  }

  lemma {:induction false} RunMeasure(job: Job, states: seq<State>, actions: seq<Action>, i: nat)
    requires Run(job, states, actions) && i < |states|
    ensures Measure(job, states[i]) + i <= Measure(job, Start(job))
  {
    hide Run, Measure, Enabled, Step, Inv, Start;
    RunStart(job, states, actions);
    if i > 0 {
      RunStep(job, states, actions, i - 1);
      RunMeasure(job, states, actions, i - 1);
      RunKeepsInv(job, states, actions, i - 1);
      StepDecreases(job, states[i - 1], actions[i - 1]);
    }
  }

  /**
   Every run ends, and a run that has ended has delivered the file (exactly its octets, its name and
   its date) to the satisfaction of both sides if and only if both single reads got everything there
   was.
   */
  lemma RunDelivers(job: Job, states: seq<State>, actions: seq<Action>)
    requires job.Sendable() && Run(job, states, actions)
    ensures |actions| <= Measure(job, Start(job)) && |states| == |actions| + 1
    ensures var last := states[|actions|];
            (forall a :: !Enabled(last, a)) ==>
              ((forall j :: 0 <= j < |actions| ==> GetsAll(job, actions[j])) <==>
               last.sender == Sent && last.receiver == Received && Delivered(job, last))
  {
    RunStart(job, states, actions);
    RunMeasure(job, states, actions, |actions|);
    RunKeepsInv(job, states, actions, |actions|);
    WholeIsGetsAll(job, states, actions, |actions|);
    hide Run, Inv, Measure, Enabled, Step, Delivered, GetsAll;
    var last := states[|actions|];
    if forall a :: !Enabled(last, a) {
      if Whole(job, last) {
        StopsWhenDone(job, last);
      } else if last.receiver == Received {
        DeliveredIffWhole(job, last);
      }
    }
  }

  // ---- A request that is read in two pieces ----

  /** Every request with a name below 1990 octets fits the buffers. */
  lemma ShortNameFits(job: Job)
    requires |job.name| < 1990
    ensures |job.Header()| < BUFLEN
  {
    DateSurvives(job.mtime);
    hide PrintFile, SentDate;
    FileLength(|job.file|, job.Mode(), SentDate(job.mtime) / UINT, SentDate(job.mtime) % UINT, job.name);
  }

  /** A first read of `k` octets makes the receiver expect the file under another name. */
  predicate Misread(job: Job, k: nat, name: Text) {
    && k <= |job.Header()|
    && var r := ScanRequest(job.long, job.Header()[..k]);
       Accepted(r, k) && r.FileRequest? && r.size == |job.file| && r.name == name
  }

  /** The request without the last octets of its name is a request for another file. */
  lemma SplitRequest(job: Job, cut: nat)
    requires job.Sendable() && 0 < cut < |job.name|
    ensures cut < |job.Header()| < BUFLEN
    ensures Misread(job, |job.Header()| - cut, job.name[..|job.name| - cut])
    ensures job.Header()[|job.Header()| - cut..] == job.name[|job.name| - cut..]
  {
    var date := SentDate(job.mtime);
    DateSurvives(job.mtime);
    hide ScanRequest, SentDate, PrintFile, IsSpace, ReceivedDate;
    var hi, lo := date / UINT, date % UINT;
    assert job.Header() == PrintFile(|job.file|, job.Mode(), hi, lo, job.name);
    CutName(job.long, |job.file|, job.Mode(), hi, lo, job.name, cut);
  }

  /**
   Such a request is not noticed: when the first read misses some octets of the name, they end up in
   the file, which gets the name that is left.
   */
  lemma NameInFile(job: Job, cut: nat) returns (states: seq<State>, actions: seq<Action>)
    requires job.Sendable() && 0 < cut < |job.name| && job.file != []
    ensures Run(job, states, actions) && cut < |job.Header()|
    ensures actions == [WriteHeader, ReadHeader(|job.Header()| - cut), WriteAck, ReadData(cut)]
    ensures Takes(states[4], job.name[|job.name| - cut..], job.name[..|job.name| - cut])
  {
    hide Run, Job.Header, Job.Sendable, Enabled, Step, ScanRequest, Accepted, Start, Misread, Size;
    SplitRequest(job, cut);
    var k := |job.Header()| - cut;
    var s1, s2 := SplitBegins(job, cut, job.name[..|job.name| - cut]);
    var s3, s4 := SplitEnds(job, cut, s2);
    RunNothing(job);
    states, actions := RunOn(job, [Start(job)], [], WriteHeader, s1);
    states, actions := RunOn(job, states, actions, ReadHeader(k), s2);
    states, actions := RunOn(job, states, actions, WriteAck, s3);
    states, actions := RunOn(job, states, actions, ReadData(cut), s4);
  }

  /** The receiver has written some octets to a file of some name. */
  predicate Takes(s: State, octets: seq<byte>, name: Text) {
    s.received == octets && s.request.FileRequest? && s.request.name == name
  }

  lemma SplitBegins(job: Job, cut: nat, name: Text) returns (s1: State, s2: State)
    requires cut < |job.Header()| < BUFLEN && Misread(job, |job.Header()| - cut, name)
    ensures Enabled(Start(job), WriteHeader) && s1 == Step(job, Start(job), WriteHeader)
    ensures Enabled(s1, ReadHeader(|job.Header()| - cut)) && s2 == Step(job, s1, ReadHeader(|job.Header()| - cut))
    ensures s2.receiver == Acking && s2.toReceiver == job.Header()[|job.Header()| - cut..] && Takes(s2, [], name)
    ensures Size(s2.request) == |job.file|
  {
    hide Job.Header, ScanRequest, Accepted;
    assert [] + job.Header() == job.Header();
    s1 := Step(job, Start(job), WriteHeader);
    s2 := Step(job, s1, ReadHeader(|job.Header()| - cut));
  }

  lemma SplitEnds(job: Job, cut: nat, s2: State) returns (s3: State, s4: State)
    requires s2.receiver == Acking && |s2.toReceiver| == cut && 0 < cut <= BUFLEN
    requires s2.received == [] && Size(s2.request) > 0
    ensures Enabled(s2, WriteAck) && s3 == Step(job, s2, WriteAck)
    ensures Enabled(s3, ReadData(cut)) && s4 == Step(job, s3, ReadData(cut))
    ensures s4.received == s2.toReceiver && s4.request == s2.request
  {
    s3 := Step(job, s2, WriteAck);
    s4 := Step(job, s3, ReadData(cut));
    assert s3.toReceiver[..cut] == s3.toReceiver;
  }

  lemma RunNothing(job: Job)
    ensures Run(job, [Start(job)], [])
  {
  }

  /** A run goes on with any step that is possible. */
  lemma RunOn(job: Job, states: seq<State>, actions: seq<Action>, a: Action, s: State)
      returns (states': seq<State>, actions': seq<Action>)
    requires |states| == |actions| + 1 && Run(job, states, actions)
    requires Enabled(states[|actions|], a) && s == Step(job, states[|actions|], a)
    ensures |states'| == |actions'| + 1 && Run(job, states', actions')
    ensures actions' == actions + [a] && states'[|actions'|] == s
  {
    hide Enabled, Step;
    states', actions' := states + [s], actions + [a];
  }

  /** There are such transfers: one octet, called "ab". */
  lemma NameInFileExample() returns (job: Job, states: seq<State>, actions: seq<Action>)
    ensures job.Sendable() && Run(job, states, actions)
    ensures job.file == [7] && job.name == [97, 98]
    ensures |states| == 5 && Takes(states[4], [98], [97])
  {
    job := Job(Long64, [7], [97, 98], true, 0);
    ShortNameFits(job);
    hide Job.Header, Run;
    states, actions := NameInFile(job, 1);
    RunStart(job, states, actions);
  }

  // ---- The loops of the two sides ----

  /** The sender's loop writes the file in full buffers and one last, shorter one. */
  method SendFile(file: seq<byte>) returns (writes: seq<seq<byte>>)
    ensures Flatten(writes) == file
    ensures forall i :: 0 <= i < |writes| ==> 0 < |writes[i]| <= BUFLEN
    ensures forall i :: 0 <= i < |writes| - 1 ==> |writes[i]| == BUFLEN == 2044
  {
    writes := [];
    var cnt := 0;
    while cnt < |file|
      invariant cnt <= |file| && Flatten(writes) == file[..cnt]
      invariant forall i :: 0 <= i < |writes| ==> 0 < |writes[i]| <= BUFLEN
      invariant cnt < |file| ==> forall i :: 0 <= i < |writes| ==> |writes[i]| == BUFLEN
      invariant forall i :: 0 <= i < |writes| - 1 ==> |writes[i]| == BUFLEN
    {
      var rc := Chunk(file[cnt..]);
      var buf := file[cnt..cnt + rc];
      FlattenAppend(writes, [buf]);
      FlattenOne(buf);
      assert file[..cnt + rc] == file[..cnt] + buf;
      writes := writes + [buf];
      cnt := cnt + rc;
    }
    assert file[..cnt] == file;
  }

  lemma FlattenOne(s: seq<byte>)
    ensures Flatten([s]) == s
  {
    assert [s][1..] == [];
  }

  /**
   The receiver's loop takes reads until it has as much as was announced: everything it read goes
   to its file, and it reads no more than it has to. It fails when the connection ends first.
   */
  method ReceiveFile(size: nat, pieces: seq<seq<byte>>) returns (file: seq<byte>, used: nat, ok: bool)
    requires forall i :: 0 <= i < |pieces| ==> 0 < |pieces[i]| <= BUFLEN
    ensures used <= |pieces| && file == Flatten(pieces[..used])
    ensures ok <==> |file| >= size
    ensures ok && used > 0 ==> |Flatten(pieces[..used - 1])| < size
    ensures !ok ==> used == |pieces|
  {
    file, used := [], 0;
    while |file| < size && used < |pieces|
      invariant used <= |pieces| && file == Flatten(pieces[..used])
      invariant used > 0 ==> |Flatten(pieces[..used - 1])| < size
    {
      FlattenAppend(pieces[..used], [pieces[used]]);
      FlattenOne(pieces[used]);
      assert pieces[..used + 1] == pieces[..used] + [pieces[used]];
      file := file + pieces[used];
      used := used + 1;
    }
    ok := |file| >= size;
  }
}
