/**
 * The macOS gamepad and its broker: fixed-size messages over a stream socket, with no request number
 * in them. A caller holding `call_mutex`, a reader thread and the broker's session take turns in any
 * order; each step here is one critical section or one system call of one of them.
 */
module MacosBroker {
  import opened Bytes

  const MESSAGE_SIZE: nat := 9412
  const DATA_OFFSET: nat := 1220
  const MAX_DATA: nat := 8192
  const MAX_REPORT: nat := 1024
  const PROTOCOL_VERSION: nat := 1
  const SUBMIT: nat := 6
  const CLOSE: nat := 7

  type Report = seq<Byte>

  // ----- The wire format ---------------------------------------------------------------------

  function LittleEndian32(n: nat): (bytes: seq<Byte>)
    ensures |bytes| == 4
  {
    [n % 256, n / 256 % 256, n / 65536 % 256, n / 16777216 % 256]
  }

  function Word(bytes: seq<Byte>, at: nat): nat
    requires at + 4 <= |bytes|
  {
    var a: nat, b: nat, c: nat, d: nat := bytes[at], bytes[at + 1], bytes[at + 2], bytes[at + 3];
    a + 256 * b + 65536 * c + 16777216 * d
  }

  function Zeros(n: nat): (z: seq<Byte>)
    ensures |z| == n
  {
    seq(n, _ => 0)
  }

  /** A client message: version, type, status, size, thirteen more words, the texts, the data. */
  function Encode(kind: nat, report: Report): (bytes: seq<Byte>)
    requires |report| <= MAX_DATA
    ensures |bytes| == MESSAGE_SIZE
  {
    LittleEndian32(PROTOCOL_VERSION) + LittleEndian32(kind) + LittleEndian32(0) + LittleEndian32(|report|)
    + Zeros(DATA_OFFSET - 16) + report + Zeros(MAX_DATA - |report|)
  }

  lemma EncodedFields(kind: nat, report: Report)
    requires |report| <= MAX_DATA && kind < 256
    ensures var bytes := Encode(kind, report);
            && bytes[0] == 1 && bytes[1] == 0 && bytes[2] == 0 && bytes[3] == 0
            && Word(bytes, 0) == PROTOCOL_VERSION
            && Word(bytes, 4) == kind
            && Word(bytes, 12) == |report|
            && bytes[DATA_OFFSET..DATA_OFFSET + |report|] == report
  {
    var head := LittleEndian32(PROTOCOL_VERSION) + LittleEndian32(kind) + LittleEndian32(0) + LittleEndian32(|report|);
    var bytes := Encode(kind, report);
    assert bytes == head + Zeros(DATA_OFFSET - 16) + report + Zeros(MAX_DATA - |report|);
    assert bytes[..16] == head;
    assert bytes[0] == head[0] && bytes[1] == head[1] && bytes[2] == head[2] && bytes[3] == head[3];
    assert bytes[4] == head[4] && bytes[5] == head[5] && bytes[6] == head[6] && bytes[7] == head[7];
    assert bytes[12] == head[12] && bytes[13] == head[13] && bytes[14] == head[14] && bytes[15] == head[15];
  }

  /** What the session makes of a message: the device took it, refused it, or it was not a valid submit. */
  datatype Reply = Taken(report: Report) | Refused(report: Report) | Invalid

  function Verdict(bytes: seq<Byte>, expected: nat, accepted: bool): Reply
    requires |bytes| == MESSAGE_SIZE
  {
    var size := Word(bytes, 12);
    if Word(bytes, 4) != SUBMIT || size != expected || size > MAX_REPORT then Invalid
    else if accepted then Taken(bytes[DATA_OFFSET..DATA_OFFSET + size])
    else Refused(bytes[DATA_OFFSET..DATA_OFFSET + size])
  }

  /** A byte on the wire, with the message it was sent for. */
  datatype Piece = Piece(call: nat, at: nat, value: Byte)

  function Frame(call: nat, bytes: seq<Byte>): (frame: seq<Piece>)
    ensures |frame| == |bytes|
  {
    seq(|bytes|, i requires 0 <= i < |bytes| => Piece(call, i, bytes[i]))
  }

  function Values(pieces: seq<Piece>): (bytes: seq<Byte>)
    ensures |bytes| == |pieces|
  {
    seq(|pieces|, i requires 0 <= i < |pieces| => pieces[i].value)
  }

  lemma FrameValues(call: nat, bytes: seq<Byte>)
    ensures Values(Frame(call, bytes)) == bytes
  {
  }

  /** An answer as the session made it, with the pieces it read. */
  datatype Answer = Answer(frame: seq<Piece>, reply: Reply)

  datatype Event = Answered(answer: Answer) | Output(output: Report)

  function Answers(down: seq<Event>): seq<Answer> {
    if down == [] then [] else (if down[0].Answered? then [down[0].answer] else []) + Answers(down[1..])
  }

  lemma {:induction false} AnswersAppend(down: seq<Event>, e: Event)
    ensures Answers(down + [e]) == Answers(down) + (if e.Answered? then [e.answer] else [])
  {
    if down == [] {
      assert down + [e] == [e];
    } else {
      AnswersAppend(down[1..], e);
      assert (down + [e])[1..] == down[1..] + [e];
    }
  }

  // ----- The state ---------------------------------------------------------------------------

  /** Where the thread that holds `call_mutex` is; nobody holds it when `Free`. */
  datatype Caller = Free | Preparing | Sending(sent: nat) | Waiting | Expired | Closing(closed: nat)

  datatype Result = Status(answer: Answer) | InvalidArgument | DeviceClosed | Unavailable

  datatype Outcome = Outcome(call: nat, report: Report, result: Result)

  datatype Client = Client(
    caller: Caller, calls: nat, report: Report, fdOpen: bool,
    ready: bool, response: Answer, disconnected: bool,
    outcomes: seq<Outcome>)

  datatype Wire = Wire(up: seq<Piece>, down: seq<Event>, shut: bool)

  datatype Session = Session(frame: seq<Piece>, running: bool, expected: nat)

  datatype State = State(client: Client, wire: Wire, session: Session)

  function Created(expected: nat): State {
    State(
      Client(Free, 0, [], true, false, Answer([], Invalid), false, []),
      Wire([], [], false),
      Session([], true, expected))
  }

  predicate ValidSize(report: Report) {
    0 < |report| <= 1024
  }

  function Request(call: nat, report: Report): seq<Piece>
    requires |report| <= MAX_DATA
  {
    Frame(call, Encode(SUBMIT, report))
  }

  function Farewell(call: nat): seq<Piece> {
    Frame(call, Encode(CLOSE, []))
  }

  /** What is on the wire for a message: four words, nothing up to byte 1220, the data, nothing. */
  predicate Laid(b: seq<int>, kind: nat, report: Report) {
    && |b| == 9412 && b[..4] == [1, 0, 0, 0] && b[4..8] == [kind, 0, 0, 0] && b[8..12] == [0, 0, 0, 0]
    && b[12] + 256 * b[13] == |report| <= 8192 && b[14] == 0 && b[15] == 0
    && (forall i :: 16 <= i < 1220 ==> b[i] == 0)
    && b[1220..1220 + |report|] == report
    && (forall i :: 1220 + |report| <= i < |b| ==> b[i] == 0)
  }

  /** Six asks the broker to submit a report, seven to close. */
  lemma BytesOnTheWire(call: nat, report: Report)
    requires ValidSize(report)
    ensures Laid(Values(Request(call, report)), 6, report) && Laid(Values(Farewell(call)), 7, [])
  {
    FrameValues(call, Encode(SUBMIT, report));
    FrameValues(call, Encode(CLOSE, []));
    EncodedLaid(SUBMIT, report);
    EncodedLaid(CLOSE, []);
  }

  lemma EncodedLaid(kind: nat, report: Report)
    requires |report| <= 1024 && kind < 256
    ensures Laid(Encode(kind, report), kind, report)
  {
    var rest := Zeros(1204) + report + Zeros(8192 - |report|);
    hide LittleEndian32;
    FourWords(LittleEndian32(1), LittleEndian32(kind), LittleEndian32(0), LittleEndian32(|report|), rest);
    SizeWord(|report|);
    SizeWord(kind);
    SizeWord(1);
    SizeWord(0);
    var b := Encode(kind, report);
    assert b == LittleEndian32(1) + LittleEndian32(kind) + LittleEndian32(0) + LittleEndian32(|report|) + rest;
    assert b[12] == b[12..16][0] && b[13] == b[12..16][1] && b[14] == b[12..16][2] && b[15] == b[12..16][3];
    hide Encode;
    assert b[16..] == rest;
    assert forall i :: 16 <= i < |b| ==> b[i] == rest[i - 16];
    assert b[1220..1220 + |report|] == rest[1204..1204 + |report|];
  }

  lemma FourWords(a: seq<Byte>, b: seq<Byte>, c: seq<Byte>, d: seq<Byte>, rest: seq<Byte>)
    requires |a| == |b| == |c| == |d| == 4
    ensures var all := a + b + c + d + rest;
            all[..4] == a && all[4..8] == b && all[8..12] == c && all[12..16] == d && all[16..] == rest
  {
  }

  lemma SizeWord(n: nat)
    requires n <= 1024
    ensures LittleEndian32(n) == [n % 256, n / 256, 0, 0]
  {
  }

  // ----- Steps of the client -----------------------------------------------------------------

  datatype ClientOp =
    | Submit(submitted: Report)
    | ClearResponse
    | Send(count: nat)
    | SendFails
    | Wake
    | Timeout
    | Shutdown
    | BeginClose
    | FinishClose
    | Read
    | ReaderEnds

  function Ended(c: Client, result: Result): Client {
    c.(caller := Free, outcomes := c.outcomes + [Outcome(c.calls, c.report, result)])
  }

  /** A step that its thread cannot take now leaves everything as it is. */
  function ClientStep(c: Client, w: Wire, op: ClientOp): (Client, Wire) {
    match op
    case Submit(report) =>
      if !ValidSize(report) then (c.(outcomes := c.outcomes + [Outcome(c.calls, report, InvalidArgument)]), w)
      else if !c.caller.Free? then (c, w)
      else if !c.fdOpen then (c.(outcomes := c.outcomes + [Outcome(c.calls, report, DeviceClosed)]), w)
      else (c.(caller := Preparing, calls := c.calls + 1, report := report), w)
    case ClearResponse =>
      if c.caller.Preparing? then (c.(caller := Sending(0), ready := false), w) else (c, w)
    case Send(count) =>
      if w.shut || count == 0 then (c, w)
      else if c.caller.Sending? && c.caller.sent + count <= MESSAGE_SIZE && |c.report| <= MAX_DATA then
        var next := c.caller.sent + count;
        (c.(caller := if next == MESSAGE_SIZE then Waiting else Sending(next)),
         w.(up := w.up + Request(c.calls, c.report)[c.caller.sent..next]))
      else if c.caller.Closing? && c.caller.closed + count <= MESSAGE_SIZE then
        var next := c.caller.closed + count;
        (c.(caller := Closing(next)), w.(up := w.up + Farewell(c.calls)[c.caller.closed..next]))
      else (c, w)
    case SendFails =>
      if c.caller.Sending? then (Ended(c, Unavailable), w) else (c, w)
    case Wake =>
      if c.caller.Waiting? && (c.ready || c.disconnected) then
        (Ended(c, if c.ready then Status(c.response) else Unavailable), w)
      else (c, w)
    case Timeout =>
      if c.caller.Waiting? && !c.ready && !c.disconnected then (c.(caller := Expired), w) else (c, w)
    case Shutdown =>
      if c.caller.Expired? then (Ended(c, Unavailable), w.(shut := true)) else (c, w)
    case BeginClose =>
      if c.caller.Free? && c.fdOpen then (c.(caller := Closing(0), calls := c.calls + 1), w) else (c, w)
    case FinishClose =>
      if c.caller.Closing? then (c.(caller := Free, fdOpen := false), w.(shut := true)) else (c, w)
    case Read =>
      if c.disconnected || w.down == [] then (c, w)
      else
        var rest := w.(down := w.down[1..]);
        if w.down[0].Answered? then (c.(ready := true, response := w.down[0].answer), rest) else (c, rest)
    case ReaderEnds => (c.(disconnected := true), w)
  }

  // ----- Steps of the broker's session ---------------------------------------------------------

  datatype SessionOp =
    | Receive(count: nat)
    | Handle(accepted: bool, sent: bool)
    | Emit(report: Report, emitted: bool)
    | End

  /** A send that fails shuts the socket down from the broker's side and ends the session. */
  function SessionStep(s: Session, w: Wire, op: SessionOp): (Session, Wire) {
    match op
    case Receive(count) =>
      if s.running && count <= |w.up| && |s.frame| + count <= MESSAGE_SIZE then
        (s.(frame := s.frame + w.up[..count]), w.(up := w.up[count..]))
      else (s, w)
    case Handle(accepted, sent) =>
      if !s.running || |s.frame| != MESSAGE_SIZE then (s, w)
      else
        var bytes := Values(s.frame);
        if Word(bytes, 0) != PROTOCOL_VERSION || Word(bytes, 4) == CLOSE then (s.(running := false), w)
        else if sent then
          (s.(frame := []), w.(down := w.down + [Answered(Answer(s.frame, Verdict(bytes, s.expected, accepted)))]))
        else (s.(running := false), w.(shut := true))
    case Emit(report, emitted) =>
      if !s.running then (s, w)
      else if emitted then (s, w.(down := w.down + [Output(report)]))
      else (s.(running := false), w.(shut := true))
    case End => (s.(running := false), w)
  }

  datatype Op = ByClient(client: ClientOp) | BySession(session: SessionOp)

  function Step(s: State, op: Op): State {
    match op
    case ByClient(o) => var (c, w) := ClientStep(s.client, s.wire, o); State(c, w, s.session)
    case BySession(o) => var (b, w) := SessionStep(s.session, s.wire, o); State(s.client, w, b)
  }

  function StepAll(s: State, ops: seq<Op>): State
    decreases |ops|
  {
    if ops == [] then s else StepAll(Step(s, ops[0]), ops[1..])
  }

  function Run(expected: nat, ops: seq<Op>): State {
    StepAll(Created(expected), ops)
  }

  lemma {:induction false} StepAllConcat(s: State, a: seq<Op>, b: seq<Op>)
    ensures StepAll(s, a + b) == StepAll(StepAll(s, a), b)
    decreases |a|
  {
    hide Step;
    if a == [] {
      assert a + b == b;
    } else {
      assert (a + b)[1..] == a[1..] + b;
      StepAllConcat(Step(s, a[0]), a[1..], b);
    }
  }

  lemma StepAllFirst(s: State, op: Op, rest: seq<Op>)
    ensures StepAll(s, [op] + rest) == StepAll(Step(s, op), rest)
  {
    hide Step;
    assert ([op] + rest)[1..] == rest;
  }

  // ----- The invariant -----------------------------------------------------------------------

  /** Bytes sent and not yet handled. */
  function Stream(s: State): seq<Piece> {
    s.session.frame + s.wire.up
  }

  /** The first four bytes, as far as they are there, cannot be the protocol version. */
  predicate Spoiled(p: seq<Piece>) {
    || (|p| > 0 && p[0].value != 1)
    || (|p| > 1 && p[1].value != 0)
    || (|p| > 2 && p[2].value != 0)
    || (|p| > 3 && p[3].value != 0)
  }

  /** Already spoiled, or spoiled by whatever message comes next. */
  predicate Doomed(p: seq<Piece>) {
    Spoiled(p) || 0 < |p| < 4
  }

  /** Nothing sent so far will ever be answered. */
  predicate Silent(s: State) {
    || s.client.disconnected
    || (Answers(s.wire.down) == [] && (s.session.running ==> Stream(s) == [] || Doomed(Stream(s))))
  }

  predicate OwnAnswer(answer: Answer, call: nat, report: Report, expected: nat) {
    && |report| <= MAX_DATA
    && answer.frame == Request(call, report)
    && exists accepted :: answer.reply == Verdict(Encode(SUBMIT, report), expected, accepted)
  }

  predicate SendingOk(s: State, sent: nat)
    requires |s.client.report| <= MAX_DATA && sent <= MESSAGE_SIZE
  {
    || s.wire.shut
    || (!s.client.ready
        && (|| s.client.disconnected
            || (Answers(s.wire.down) == []
                && (s.session.running ==>
                      || Stream(s) == Request(s.client.calls, s.client.report)[..sent]
                      || Spoiled(Stream(s))
                      || (sent == 0 && Doomed(Stream(s)))))))
  }

  predicate WaitingOk(s: State)
    requires |s.client.report| <= MAX_DATA
  {
    && (s.client.ready ==> OwnAnswer(s.client.response, s.client.calls, s.client.report, s.session.expected))
    && (|| s.client.disconnected
        || (s.client.ready && Answers(s.wire.down) == [] && (s.session.running ==> Stream(s) == []))
        || (!s.client.ready && |Answers(s.wire.down)| == 1
            && OwnAnswer(Answers(s.wire.down)[0], s.client.calls, s.client.report, s.session.expected)
            && (s.session.running ==> Stream(s) == []))
        || (!s.client.ready && Answers(s.wire.down) == []
            && (s.session.running ==>
                  || Stream(s) == Request(s.client.calls, s.client.report)
                  || Spoiled(Stream(s)))))
  }

  predicate CallOk(s: State) {
    match s.client.caller
    case Free => s.wire.shut || Silent(s)
    case Preparing => ValidSize(s.client.report) && (s.wire.shut || Silent(s))
    case Sending(sent) => ValidSize(s.client.report) && sent < MESSAGE_SIZE && SendingOk(s, sent)
    case Waiting => ValidSize(s.client.report) && WaitingOk(s)
    case Expired => ValidSize(s.client.report) && WaitingOk(s)
    case Closing(_) => true
  }

  predicate OutcomeOk(o: Outcome, expected: nat) {
    o.result.Status? ==> OwnAnswer(o.result.answer, o.call, o.report, expected)
  }

  predicate OutcomesOk(outcomes: seq<Outcome>, expected: nat) {
    forall i :: 0 <= i < |outcomes| ==> OutcomeOk(outcomes[i], expected)
  }

  predicate Inv(s: State, expected: nat) {
    && s.session.expected == expected
    && (s.client.fdOpen || s.client.caller.Free?)
    && CallOk(s)
    && OutcomesOk(s.client.outcomes, expected)
  }

  /**
   * A send that fails after the type field began to leave, while the other side still listens and has
   * nothing it will stumble over first: the call returns and gives up the lock with part of its message
   * on the wire and the socket open.
   */
  predicate Torn(s: State, op: Op) {
    && op == ByClient(SendFails)
    && s.client.caller.Sending? && s.client.caller.sent >= 4
    && s.session.running && !s.wire.shut && !s.client.disconnected
    && !Spoiled(Stream(s))
  }

  predicate NeverTornFrom(s: State, ops: seq<Op>)
    decreases |ops|
  {
    ops != [] ==> !Torn(s, ops[0]) && NeverTornFrom(Step(s, ops[0]), ops[1..])
  }

  predicate NeverTorn(expected: nat, ops: seq<Op>) {
    NeverTornFrom(Created(expected), ops)
  }

  // ----- Every step keeps it -------------------------------------------------------------------

  lemma OutcomeAdded(outcomes: seq<Outcome>, o: Outcome, expected: nat)
    requires OutcomesOk(outcomes, expected) && OutcomeOk(o, expected)
    ensures OutcomesOk(outcomes + [o], expected)
  {
    hide OutcomeOk;
  }

  lemma SubmitKeeps(s: State, report: Report, expected: nat)
    requires Inv(s, expected)
    ensures Inv(Step(s, ByClient(Submit(report))), expected)
  {
    hide Answers, Spoiled, Doomed, SendingOk, WaitingOk, Encode, Frame, OwnAnswer, OutcomesOk, Silent;
    OutcomeAdded(s.client.outcomes, Outcome(s.client.calls, report, InvalidArgument), expected);
    OutcomeAdded(s.client.outcomes, Outcome(s.client.calls, report, DeviceClosed), expected);
    var t := Step(s, ByClient(Submit(report)));
    SameWire(s, t);
    if t.client.caller == s.client.caller {
      SameCall(s, t);
    }
  }

  lemma SameCall(s: State, t: State)
    requires t == s.(client := s.client.(outcomes := t.client.outcomes))
    ensures CallOk(t) == CallOk(s)
  {
    hide Answers, Spoiled, Doomed, Request, OwnAnswer;
  }

  lemma SameStream(s: State, t: State)
    requires s.wire.up == t.wire.up && s.session.frame == t.session.frame
    ensures Stream(s) == Stream(t)
  {
  }

  /** What the client does with its own fields leaves what is in flight as it is. */
  lemma SameWire(s: State, t: State)
    requires s.wire == t.wire && s.session == t.session && s.client.disconnected == t.client.disconnected
    ensures Silent(s) == Silent(t)
  {
  }

  lemma RequestStarts(call: nat, report: Report)
    requires |report| <= MAX_DATA
    ensures var p := Request(call, report);
            |p| == MESSAGE_SIZE && p[0].value == 1 && p[1].value == 0 && p[2].value == 0 && p[3].value == 0
  {
    hide Encode;
    EncodedFields(SUBMIT, report);
  }

  lemma SpoiledGrows(p: seq<Piece>, more: seq<Piece>)
    requires Spoiled(p)
    ensures Spoiled(p + more)
  {
  }

  /** After one to three stray bytes, the version of the next message comes out wrong. */
  lemma DoomedThenMessage(p: seq<Piece>, call: nat, report: Report, count: nat)
    requires Doomed(p) && 0 < count <= MESSAGE_SIZE && |report| <= MAX_DATA
    ensures Spoiled(p + Request(call, report)[..count])
  {
    hide Encode, Frame, Request;
    RequestStarts(call, report);
    var more := Request(call, report)[..count];
    if !Spoiled(p) {
      assert (p + more)[|p|] == more[0];
    }
  }

  lemma SpoiledRejected(frame: seq<Piece>)
    requires Spoiled(frame) && |frame| == MESSAGE_SIZE
    ensures Word(Values(frame), 0) != PROTOCOL_VERSION
  {
    var bytes := Values(frame);
    assert bytes[0] == frame[0].value && bytes[1] == frame[1].value;
    assert bytes[2] == frame[2].value && bytes[3] == frame[3].value;
  }

  lemma RequestAnswered(call: nat, report: Report, expected: nat, accepted: bool)
    requires |report| <= MAX_DATA
    ensures var frame := Request(call, report);
            && Word(Values(frame), 0) == PROTOCOL_VERSION && Word(Values(frame), 4) == SUBMIT
            && OwnAnswer(Answer(frame, Verdict(Values(frame), expected, accepted)), call, report, expected)
  {
    hide Encode, Verdict;
    EncodedFields(SUBMIT, report);
    FrameValues(call, Encode(SUBMIT, report));
  }

  lemma ClearKeeps(s: State, expected: nat)
    requires Inv(s, expected)
    ensures Inv(Step(s, ByClient(ClearResponse)), expected)
  {
    hide Answers, Spoiled, Doomed, WaitingOk, Encode, Frame, OwnAnswer;
    var t := Step(s, ByClient(ClearResponse));
    if s.client.caller.Preparing? {
      assert Request(t.client.calls, t.client.report)[..0] == [];
      assert Stream(t) == Stream(s);
    }
  }

  lemma SendingSteps(s: State, sent: nat, count: nat)
    requires ValidSize(s.client.report) && sent + count < MESSAGE_SIZE && count > 0 && !s.wire.shut
    requires s.client.caller == Sending(sent) && SendingOk(s, sent)
    ensures SendingOk(Step(s, ByClient(Send(count))), sent + count)
  {
    hide Answers, Spoiled, Doomed, Request;
    SendingStream(s, sent, count);
  }

  lemma SendingLast(s: State, sent: nat, count: nat)
    requires ValidSize(s.client.report) && sent + count == MESSAGE_SIZE && count > 0 && !s.wire.shut
    requires s.client.caller == Sending(sent) && SendingOk(s, sent)
    ensures WaitingOk(Step(s, ByClient(Send(count))))
  {
    hide Answers, Spoiled, Doomed, Request, OwnAnswer;
    SendingStream(s, sent, count);
    RequestStarts(s.client.calls, s.client.report);
    assert Request(s.client.calls, s.client.report)[..MESSAGE_SIZE] == Request(s.client.calls, s.client.report);
  }

  /** What a successful send adds to the stream. */
  lemma SentStream(s: State, sent: nat, count: nat)
    requires ValidSize(s.client.report) && sent + count <= MESSAGE_SIZE && count > 0 && !s.wire.shut
    requires s.client.caller == Sending(sent)
    ensures Stream(Step(s, ByClient(Send(count))))
         == Stream(s) + Request(s.client.calls, s.client.report)[sent..sent + count]
  {
    hide Encode, Frame, Farewell;
    var more := Request(s.client.calls, s.client.report)[sent..sent + count];
    assert s.session.frame + (s.wire.up + more) == s.session.frame + s.wire.up + more;
  }

  lemma SendingStream(s: State, sent: nat, count: nat)
    requires ValidSize(s.client.report) && sent + count <= MESSAGE_SIZE && count > 0 && !s.wire.shut
    requires s.client.caller == Sending(sent)
    ensures var request := Request(s.client.calls, s.client.report);
            var t := Step(s, ByClient(Send(count)));
            && |request| == MESSAGE_SIZE
            && Stream(t) == Stream(s) + request[sent..sent + count]
            && (Stream(s) == request[..sent] ==> Stream(t) == request[..sent + count])
            && (Spoiled(Stream(s)) ==> Spoiled(Stream(t)))
            && (sent == 0 && Doomed(Stream(s)) ==> Spoiled(Stream(t)))
  {
    hide Spoiled, Doomed, Request, Step, Stream;
    RequestStarts(s.client.calls, s.client.report);
    SentStream(s, sent, count);
    var request := Request(s.client.calls, s.client.report);
    assert request[..sent] + request[sent..sent + count] == request[..sent + count];
    if Spoiled(Stream(s)) {
      SpoiledGrows(Stream(s), request[sent..sent + count]);
    }
    if sent == 0 && Doomed(Stream(s)) {
      DoomedThenMessage(Stream(s), s.client.calls, s.client.report, count);
      assert request[0..count] == request[..count];
    }
  }

  lemma SendKeeps(s: State, count: nat, expected: nat)
    requires Inv(s, expected)
    ensures Inv(Step(s, ByClient(Send(count))), expected)
  {
    hide Answers, Spoiled, Doomed, SendingOk, WaitingOk, Request, Farewell, Stream, OwnAnswer, OutcomesOk;
    if s.client.caller.Sending? && count > 0 && !s.wire.shut {
      var sent := s.client.caller.sent;
      if sent + count < MESSAGE_SIZE {
        SendingSteps(s, sent, count);
      } else if sent + count == MESSAGE_SIZE {
        SendingLast(s, sent, count);
      }
    }
  }

  lemma SendFailsKeeps(s: State, expected: nat)
    requires Inv(s, expected) && !Torn(s, ByClient(SendFails))
    ensures Inv(Step(s, ByClient(SendFails)), expected)
  {
    hide Answers, Spoiled, Request, OutcomesOk;
    if s.client.caller.Sending? {
      var o := Outcome(s.client.calls, s.client.report, Unavailable);
      OutcomeAdded(s.client.outcomes, o, expected);
      RequestStarts(s.client.calls, s.client.report);
    }
  }

  lemma WakeKeeps(s: State, expected: nat)
    requires Inv(s, expected)
    ensures Inv(Step(s, ByClient(Wake)), expected)
  {
    hide Answers, Spoiled, Request, OutcomesOk, OwnAnswer, Stream;
    var t := Step(s, ByClient(Wake));
    if t != s {
      OutcomeAdded(s.client.outcomes, t.client.outcomes[|s.client.outcomes|], expected);
      SameStream(s, t);
    }
  }

  lemma OtherClientStepsKeep(s: State, op: ClientOp, expected: nat)
    requires Inv(s, expected)
    requires op.Timeout? || op.Shutdown? || op.BeginClose? || op.FinishClose?
    ensures Inv(Step(s, ByClient(op)), expected)
  {
    hide Answers, Spoiled, Doomed, Request, OutcomesOk, OwnAnswer, Silent, SendingOk;
    if op.Shutdown? && s.client.caller.Expired? {
      OutcomeAdded(s.client.outcomes, Outcome(s.client.calls, s.client.report, Unavailable), expected);
    }
  }

  lemma ReadKeeps(s: State, expected: nat)
    requires Inv(s, expected)
    ensures Inv(Step(s, ByClient(Read)), expected)
  {
    hide Spoiled, Doomed, Request, OutcomesOk, OwnAnswer;
  }

  lemma ReaderEndsKeeps(s: State, expected: nat)
    requires Inv(s, expected)
    ensures Inv(Step(s, ByClient(ReaderEnds)), expected)
  {
    hide Answers, Spoiled, Doomed, Request, OutcomesOk, OwnAnswer, Stream;
  }

  lemma ReceivedStream(s: State, count: nat)
    ensures Stream(Step(s, BySession(Receive(count)))) == Stream(s)
  {
    if count <= |s.wire.up| {
      assert s.wire.up == s.wire.up[..count] + s.wire.up[count..];
    }
  }

  lemma ReceiveKeeps(s: State, count: nat, expected: nat)
    requires Inv(s, expected)
    ensures Inv(Step(s, BySession(Receive(count))), expected)
  {
    hide Answers, Spoiled, Doomed, Request, OutcomesOk, OwnAnswer, Stream;
    var t := Step(s, BySession(Receive(count)));
    ReceivedStream(s, count);
  }

  lemma EmitKeeps(s: State, report: Report, emitted: bool, expected: nat)
    requires Inv(s, expected)
    ensures Inv(Step(s, BySession(Emit(report, emitted))), expected)
  {
    hide Answers, Spoiled, Doomed, Request, OutcomesOk, OwnAnswer, Stream;
    var t := Step(s, BySession(Emit(report, emitted)));
    SameStream(s, t);
    AnswersAppend(s.wire.down, Output(report));
  }

  lemma EndKeeps(s: State, expected: nat)
    requires Inv(s, expected)
    ensures Inv(Step(s, BySession(End)), expected)
  {
    hide Answers, Spoiled, Doomed, Request, OutcomesOk, OwnAnswer, Stream;
  }

  /** A whole message in hand while nothing is owed an answer is one the session rejects. */
  lemma UnexpectedIsSpoiled(s: State)
    requires CallOk(s) && s.session.running && |s.session.frame| == MESSAGE_SIZE
    requires !s.wire.shut && !s.client.disconnected
    requires s.client.caller.Free? || s.client.caller.Preparing? || s.client.caller.Sending?
    ensures Spoiled(s.session.frame)
  {
    hide Answers;
    if s.client.caller.Sending? {
      RequestStarts(s.client.calls, s.client.report);
      SpoiledHead(s.session.frame, s.wire.up);
    } else {
      SpoiledHead(s.session.frame, s.wire.up);
    }
  }

  lemma SpoiledHead(p: seq<Piece>, more: seq<Piece>)
    requires |p| >= 4
    ensures Spoiled(p + more) ==> Spoiled(p)
  {
  }

  lemma HandleWaiting(s: State, accepted: bool, sent: bool)
    requires ValidSize(s.client.report) && WaitingOk(s)
    requires s.session.running && |s.session.frame| == MESSAGE_SIZE
    ensures WaitingOk(Step(s, BySession(Handle(accepted, sent))))
  {
    hide Answers, Request, OwnAnswer, Values, Verdict, Word, Spoiled;
    RequestStarts(s.client.calls, s.client.report);
    RequestAnswered(s.client.calls, s.client.report, s.session.expected, accepted);
    var reply := Verdict(Values(s.session.frame), s.session.expected, accepted);
    AnswersAppend(s.wire.down, Answered(Answer(s.session.frame, reply)));
    SpoiledHead(s.session.frame, s.wire.up);
    if Spoiled(s.session.frame) {
      SpoiledRejected(s.session.frame);
    }
    var t := Step(s, BySession(Handle(accepted, sent)));
    if Spoiled(Stream(s)) || s.client.disconnected {
      assert s.wire.down == t.wire.down || s.client.disconnected;
    } else {
      assert Stream(s) == Request(s.client.calls, s.client.report);
      assert s.session.frame == Stream(s)[..MESSAGE_SIZE] == Request(s.client.calls, s.client.report);
      assert s.wire.up == [];
    }
  }

  lemma HandleKeeps(s: State, accepted: bool, sent: bool, expected: nat)
    requires Inv(s, expected)
    ensures Inv(Step(s, BySession(Handle(accepted, sent))), expected)
  {
    hide Answers, Request, OutcomesOk, OwnAnswer, Values, Verdict, Word, Spoiled, Doomed;
    if s.session.running && |s.session.frame| == MESSAGE_SIZE {
      if s.client.caller.Waiting? || s.client.caller.Expired? {
        HandleWaiting(s, accepted, sent);
      } else if !s.wire.shut && !s.client.disconnected && !s.client.caller.Closing? {
        UnexpectedIsSpoiled(s);
        SpoiledRejected(s.session.frame);
      }
    }
  }

  lemma StepKeeps(s: State, op: Op, expected: nat)
    requires Inv(s, expected) && !Torn(s, op)
    ensures Inv(Step(s, op), expected)
  {
    hide Inv, Step, Torn;
    match op
    case ByClient(Submit(report)) => SubmitKeeps(s, report, expected);
    case ByClient(ClearResponse) => ClearKeeps(s, expected);
    case ByClient(Send(count)) => SendKeeps(s, count, expected);
    case ByClient(SendFails) => SendFailsKeeps(s, expected);
    case ByClient(Wake) => WakeKeeps(s, expected);
    case ByClient(Read) => ReadKeeps(s, expected);
    case ByClient(ReaderEnds) => ReaderEndsKeeps(s, expected);
    case ByClient(other) => OtherClientStepsKeep(s, other, expected);
    case BySession(Receive(count)) => ReceiveKeeps(s, count, expected);
    case BySession(Handle(accepted, sent)) => HandleKeeps(s, accepted, sent, expected);
    case BySession(Emit(report, emitted)) => EmitKeeps(s, report, emitted, expected);
    case BySession(End) => EndKeeps(s, expected);
  }

  lemma {:induction false} StepAllKeeps(s: State, ops: seq<Op>, expected: nat)
    requires Inv(s, expected) && NeverTornFrom(s, ops)
    ensures Inv(StepAll(s, ops), expected)
    decreases |ops|
  {
    hide Step, Torn, Inv;
    if ops != [] {
      StepKeeps(s, ops[0], expected);
      StepAllKeeps(Step(s, ops[0]), ops[1..], expected);
    }
  }

  lemma CreatedKeeps(expected: nat)
    ensures Inv(Created(expected), expected)
  {
  }

  lemma VerdictOfRequest(report: Report, expected: nat, accepted: bool)
    requires |report| <= MAX_DATA
    ensures Verdict(Encode(SUBMIT, report), expected, accepted)
         == if |report| != expected || |report| > MAX_REPORT then Invalid
            else if accepted then Taken(report) else Refused(report)
  {
    hide Encode;
    EncodedFields(SUBMIT, report);
  }

  /**
   * In every interleaving without a torn send, a call that returns a broker status returns the answer
   * to the very bytes it sent: its own report taken or refused by the device, or found to be of the
   * wrong size.
   */
  lemma RunCorrelates(expected: nat, ops: seq<Op>, i: nat)
    requires NeverTorn(expected, ops)
    requires i < |Run(expected, ops).client.outcomes|
    requires Run(expected, ops).client.outcomes[i].result.Status?
    ensures var o := Run(expected, ops).client.outcomes[i];
            var answer := o.result.answer;
            && |o.report| <= MAX_DATA
            && answer.frame == Request(o.call, o.report)
            && (answer.reply.Invalid? <==> |o.report| != expected || |o.report| > 1024)
            && (answer.reply == Invalid || answer.reply == Taken(o.report) || answer.reply == Refused(o.report))
  {
    hide StepAll, Encode, Request, CallOk, Verdict, NeverTornFrom;
    CreatedKeeps(expected);
    StepAllKeeps(Created(expected), ops, expected);
    var o := Run(expected, ops).client.outcomes[i];
    assert OutcomeOk(o, expected);
    VerdictOfRequest(o.report, expected, true);
    VerdictOfRequest(o.report, expected, false);
  }

  /**
   * While both ends listen and the stream is in order, at most one request is on its way or unread in
   * either direction, and between calls there is none. What else may be left on the stream, bytes of
   * failed sends, is never answered: it can only end the session.
   */
  lemma RunKeepsOneOutstanding(expected: nat, ops: seq<Op>)
    requires NeverTorn(expected, ops)
    ensures var s := Run(expected, ops);
            s.session.running && !s.wire.shut && !s.client.disconnected ==>
              && (s.client.caller.Free? || s.client.caller.Preparing? ==>
                    Answers(s.wire.down) == [] && (Stream(s) == [] || Doomed(Stream(s))))
              && (s.client.caller.Sending? || s.client.caller.Waiting? || s.client.caller.Expired? ==>
                    && |s.client.report| <= MAX_DATA
                    && (Spoiled(Stream(s)) || |Stream(s)| < 4 || Stream(s) <= Request(s.client.calls, s.client.report))
                    && |Answers(s.wire.down)| + (if Stream(s) == [] then 0 else 1) <= 1)
  {
    hide StepAll, NeverTornFrom, Request, Spoiled, OwnAnswer;
    CreatedKeeps(expected);
    StepAllKeeps(Created(expected), ops, expected);
    var s := Run(expected, ops);
    if |s.client.report| <= MAX_DATA {
      RequestStarts(s.client.calls, s.client.report);
    }
  }

  // ----- What a call gets ----------------------------------------------------------------------

  /** Both ends listen, no call is in progress and nothing is in flight. */
  predicate Quiet(s: State) {
    && s.client.caller.Free? && s.client.fdOpen && !s.client.disconnected
    && s.wire == Wire([], [], false)
    && s.session.running && s.session.frame == []
  }

  function UndisturbedCall(s: State, report: Report, accepted: bool): State {
    var s1 := Step(s, ByClient(Submit(report)));
    var s2 := Step(s1, ByClient(ClearResponse));
    var s3 := Step(s2, ByClient(Send(MESSAGE_SIZE)));
    var s4 := Step(s3, BySession(Receive(MESSAGE_SIZE)));
    var s5 := Step(s4, BySession(Handle(accepted, true)));
    var s6 := Step(s5, ByClient(Read));
    Step(s6, ByClient(Wake))
  }

  /** Left alone, a call hands its report to the device, returns the answer and leaves all quiet. */
  lemma UndisturbedCallAnswers(s: State, report: Report, accepted: bool)
    requires Quiet(s) && ValidSize(report)
    ensures var t := UndisturbedCall(s, report, accepted);
            && Quiet(t)
            && |t.client.outcomes| == |s.client.outcomes| + 1
            && var o := t.client.outcomes[|s.client.outcomes|];
            && o.report == report && o.result.Status?
            && o.result.answer.reply == if |report| != s.session.expected then Invalid
                                        else if accepted then Taken(report) else Refused(report)
  {
    hide Encode, Verdict, Word, Frame, Values;
    var call := s.client.calls + 1;
    EncodedFields(SUBMIT, report);
    FrameValues(call, Encode(SUBMIT, report));
    VerdictOfRequest(report, s.session.expected, accepted);
    var request := Request(call, report);
    assert [] + request[0..MESSAGE_SIZE] == request;
    assert [] + request[..MESSAGE_SIZE] == request && request[MESSAGE_SIZE..] == [];
    var e := Answered(Answer(request, Verdict(Values(request), s.session.expected, accepted)));
    assert ([] + [e])[0] == e && ([] + [e])[1..] == [];
  }

  lemma MixedFrame(earlier: seq<Piece>, call: nat, next: Report, sent: nat)
    requires 4 <= sent < MESSAGE_SIZE && |earlier| == MESSAGE_SIZE && |next| <= MAX_DATA
    requires earlier[0].value == 1 && earlier[1].value == 0 && earlier[2].value == 0 && earlier[3].value == 0
    requires sent > 4 ==> earlier[4].value == SUBMIT
    requires forall i :: 0 <= i < |earlier| ==> earlier[i].call < call
    ensures var mixed := earlier[..sent] + Request(call, next)[..MESSAGE_SIZE - sent];
            && |mixed| == MESSAGE_SIZE
            && Word(Values(mixed), 0) == PROTOCOL_VERSION && Word(Values(mixed), 4) != CLOSE
            && mixed != Request(call, next)
  {
    hide Encode, Word;
    RequestStarts(call, next);
    var mixed := earlier[..sent] + Request(call, next)[..MESSAGE_SIZE - sent];
    var bytes := Values(mixed);
    assert bytes[0] == 1 && bytes[1] == 0 && bytes[2] == 0 && bytes[3] == 0;
    assert bytes[4] == if sent > 4 then earlier[4].value else Request(call, next)[0].value;
    WordOf(bytes);
    assert mixed[0].call < call;
  }

  lemma WordOf(bytes: seq<Byte>)
    requires |bytes| == MESSAGE_SIZE
    ensures bytes[0] == 1 && bytes[1] == 0 && bytes[2] == 0 && bytes[3] == 0 ==> Word(bytes, 0) == PROTOCOL_VERSION
    ensures bytes[4] != CLOSE ==> Word(bytes, 4) != CLOSE
  {
  }

  /** Another call follows at once, and the session answers as soon as it has a whole message. */
  function UpToAnswer(s: State, next: Report, accepted: bool): seq<Op>
    requires |s.session.frame| <= MESSAGE_SIZE
  {
    [ByClient(Submit(next)), ByClient(ClearResponse), ByClient(Send(MESSAGE_SIZE)),
     BySession(Receive(MESSAGE_SIZE - |s.session.frame|)), BySession(Handle(accepted, true))]
  }

  /** The reader then takes everything there is, and the caller wakes. */
  function Misleading(s: State, next: Report, accepted: bool): seq<Op>
    requires |s.session.frame| <= MESSAGE_SIZE
  {
    UpToAnswer(s, next, accepted) + Reads(|s.wire.down| + 1) + [ByClient(Wake)]
  }

  function Reads(n: nat): (ops: seq<Op>)
    ensures |ops| == n && forall i :: 0 <= i < n ==> ops[i] == ByClient(Read)
  {
    seq(n, _ => ByClient(Read))
  }

  lemma FiveSteps(s: State, a: Op, b: Op, c: Op, d: Op, e: Op)
    ensures StepAll(s, [a, b, c, d, e]) == Step(Step(Step(Step(Step(s, a), b), c), d), e)
  {
    hide Step, StepAll;
    assert [a, b, c, d, e] == [a] + ([b] + ([c] + ([d] + ([e] + []))));
    StepAllFirst(s, a, [b] + ([c] + ([d] + ([e] + []))));
    StepAllFirst(Step(s, a), b, [c] + ([d] + ([e] + [])));
    StepAllFirst(Step(Step(s, a), b), c, [d] + ([e] + []));
    StepAllFirst(Step(Step(Step(s, a), b), c), d, [e] + []);
    StepAllFirst(Step(Step(Step(Step(s, a), b), c), d), e, []);
    StepNone(Step(Step(Step(Step(Step(s, a), b), c), d), e));
  }

  lemma StepNone(s: State)
    ensures StepAll(s, []) == s
  {
  }

  /** The reader works through outputs until it has the one answer behind them. */
  lemma {:induction false} ReadsReachAnswer(s: State, outputs: seq<Event>, answer: Answer)
    requires s.wire.down == outputs + [Answered(answer)] && Answers(outputs) == [] && !s.client.disconnected
    requires outputs != [] ==> !s.client.ready
    ensures StepAll(s, Reads(|outputs| + 1)) ==
            s.(client := s.client.(ready := true, response := answer), wire := s.wire.(down := []))
    decreases |outputs|
  {
    var rest := Reads(|outputs|);
    var next := Step(s, ByClient(Read));
    assert Reads(|outputs| + 1) == [ByClient(Read)] + rest;
    StepAllFirst(s, ByClient(Read), rest);
    if outputs == [] {
      assert s.wire.down[1..] == [];
      StepNone(next);
    } else {
      assert s.wire.down[0] == outputs[0];
      assert s.wire.down[1..] == outputs[1..] + [Answered(answer)];
      ReadsReachAnswer(next, outputs[1..], answer);
    }
  }

  lemma {:induction false} WithoutFailuresNeverTorn(s: State, ops: seq<Op>)
    requires ByClient(SendFails) !in ops
    ensures NeverTornFrom(s, ops)
    decreases |ops|
  {
    hide Step;
    if ops != [] {
      assert ops[0] in ops;
      WithoutFailuresNeverTorn(Step(s, ops[0]), ops[1..]);
    }
  }

  /** What the session answers when the message in progress was torn and the next one follows. */
  function MixedAnswer(s: State, next: Report, accepted: bool): Answer
    requires |Stream(s)| <= MESSAGE_SIZE && |next| <= MAX_DATA
  {
    var frame := Stream(s) + Request(s.client.calls + 1, next)[..MESSAGE_SIZE - |Stream(s)|];
    Answer(frame, Verdict(Values(frame), s.session.expected, accepted))
  }

  /** Up to the answer: the waiting call finds one on its way that is not its own. */
  lemma MixedIsAnswered(s: State, next: Report, accepted: bool, expected: nat)
    requires Inv(s, expected) && Torn(s, ByClient(SendFails)) && ValidSize(next)
    ensures |s.session.frame| <= MESSAGE_SIZE && |Stream(s)| <= MESSAGE_SIZE
    ensures var failed := Step(s, ByClient(SendFails));
            var t := StepAll(failed, UpToAnswer(s, next, accepted));
            && t.client ==
               failed.client.(caller := Waiting, calls := s.client.calls + 1, report := next, ready := false)
            && t.wire.down == s.wire.down + [Answered(MixedAnswer(s, next, accepted))]
    ensures !OwnAnswer(MixedAnswer(s, next, accepted), s.client.calls + 1, next, expected)
  {
    hide Encode, Verdict, Word, Values, Request, Spoiled, Doomed, StepAll;
    var call, sent := s.client.calls, s.client.caller.sent;
    var first, second := Request(call, s.client.report), Request(call + 1, next);
    RequestStarts(call, s.client.report);
    RequestStarts(call + 1, next);
    RequestKind(call, s.client.report);
    MixedFrame(first, call + 1, next, sent);
    assert second[0..MESSAGE_SIZE] == second;
    var part := MESSAGE_SIZE - |s.session.frame|;
    assert s.session.frame + (s.wire.up + second)[..part] == first[..sent] + second[..MESSAGE_SIZE - sent];
    var ops := UpToAnswer(s, next, accepted);
    FiveSteps(Step(s, ByClient(SendFails)), ops[0], ops[1], ops[2], ops[3], ops[4]);
  }

  /** After a torn send the next call can be told that it was answered when the answer is to a mixture. */
  lemma TornSendMisleads(s: State, next: Report, accepted: bool, expected: nat)
    requires Inv(s, expected) && Torn(s, ByClient(SendFails)) && ValidSize(next)
    ensures |s.session.frame| <= MESSAGE_SIZE && |Stream(s)| <= MESSAGE_SIZE
    ensures var failed := Step(s, ByClient(SendFails));
            var t := StepAll(failed, Misleading(s, next, accepted));
            && NeverTornFrom(failed, Misleading(s, next, accepted))
            && |t.client.outcomes| == |s.client.outcomes| + 2
            && t.client.outcomes[|s.client.outcomes| + 1]
               == Outcome(s.client.calls + 1, next, Status(MixedAnswer(s, next, accepted)))
            && !OutcomeOk(t.client.outcomes[|s.client.outcomes| + 1], expected)
  {
    MixedIsAnswered(s, next, accepted, expected);
    NoFailures(s, next, accepted);
    var failed := Step(s, ByClient(SendFails));
    hide OwnAnswer, MixedAnswer, StepAll, NeverTornFrom, Inv, Torn, UpToAnswer, Answers, Reads, Step;
    var answered := StepAll(failed, UpToAnswer(s, next, accepted));
    var turns := Reads(|s.wire.down| + 1) + [ByClient(Wake)];
    assert Misleading(s, next, accepted) == UpToAnswer(s, next, accepted) + turns;
    StepAllConcat(failed, UpToAnswer(s, next, accepted), turns);
    ReadAndWake(answered, s.wire.down, MixedAnswer(s, next, accepted));
  }

  lemma NoFailures(s: State, next: Report, accepted: bool)
    requires |s.session.frame| <= MESSAGE_SIZE
    ensures NeverTornFrom(Step(s, ByClient(SendFails)), Misleading(s, next, accepted))
  {
    hide NeverTornFrom, Step;
    WithoutFailuresNeverTorn(Step(s, ByClient(SendFails)), Misleading(s, next, accepted));
  }

  /** The reader works through what is there, then the caller wakes to the answer. */
  lemma ReadAndWake(s: State, outputs: seq<Event>, answer: Answer)
    requires s.wire.down == outputs + [Answered(answer)] && Answers(outputs) == []
    requires s.client.caller.Waiting? && !s.client.disconnected && !s.client.ready
    ensures StepAll(s, Reads(|outputs| + 1) + [ByClient(Wake)]).client.outcomes
         == s.client.outcomes + [Outcome(s.client.calls, s.client.report, Status(answer))]
  {
    hide StepAll, Answers, Reads;
    ReadsReachAnswer(s, outputs, answer);
    StepAllConcat(s, Reads(|outputs| + 1), [ByClient(Wake)]);
    var ready := StepAll(s, Reads(|outputs| + 1));
    assert [ByClient(Wake)] == [ByClient(Wake)] + [];
    StepAllFirst(ready, ByClient(Wake), []);
    StepNone(Step(ready, ByClient(Wake)));
  }

  /**
   * The exclusion is exact. In any state the client can be in while it sends: once this send fails, some
   * continuation without a torn send gives a call an answer that is not its own if and only if the
   * failure tears the message.
   */
  lemma FailedSendMisleadsIff(s: State, expected: nat)
    requires Inv(s, expected) && s.client.caller.Sending?
    ensures var failed := Step(s, ByClient(SendFails));
            (exists ops ::
               NeverTornFrom(failed, ops) && !OutcomesOk(StepAll(failed, ops).client.outcomes, expected))
            <==> Torn(s, ByClient(SendFails))
  {
    hide StepAll, NeverTornFrom, CallOk, Torn, OutcomeOk, Step;
    var failed := Step(s, ByClient(SendFails));
    if Torn(s, ByClient(SendFails)) {
      TornSendMisleads(s, [0], true, expected);
      var ops := Misleading(s, [0], true);
      var outcomes := StepAll(failed, ops).client.outcomes;
      assert !OutcomeOk(outcomes[|s.client.outcomes| + 1], expected);
      assert NeverTornFrom(failed, ops) && !OutcomesOk(outcomes, expected);
    } else {
      StepKeeps(s, ByClient(SendFails), expected);
      forall ops | NeverTornFrom(failed, ops)
        ensures OutcomesOk(StepAll(failed, ops).client.outcomes, expected)
      {
        StepAllKeeps(failed, ops, expected);
      }
    }
  }

  lemma TornWhenLive(s: State)
    requires s.client.caller.Sending? && s.client.caller.sent >= 4
    requires s.session.running && !s.wire.shut && !s.client.disconnected && !Spoiled(Stream(s))
    ensures Torn(s, ByClient(SendFails))
  {
  }

  /** A call on a fresh connection, cut short after `sent` bytes. */
  function CutShort(first: Report, sent: nat): seq<Op> {
    [ByClient(Submit(first)), ByClient(ClearResponse), ByClient(Send(sent))]
  }

  lemma CutShortState(expected: nat, first: Report, sent: nat)
    requires ValidSize(first) && 4 <= sent < MESSAGE_SIZE
    ensures Run(expected, CutShort(first, sent)) == State(
      Client(Sending(sent), 1, first, true, false, Answer([], Invalid), false, []),
      Wire(Request(1, first)[..sent], [], false),
      Session([], true, expected))
  {
    hide StepAll, Encode, Frame;
    var ops := CutShort(first, sent);
    assert ops == [ops[0]] + ([ops[1]] + ([ops[2]] + []));
    var s0 := Created(expected);
    StepAllFirst(s0, ops[0], [ops[1]] + ([ops[2]] + []));
    StepAllFirst(Step(s0, ops[0]), ops[1], [ops[2]] + []);
    StepAllFirst(Step(Step(s0, ops[0]), ops[1]), ops[2], []);
    StepNone(Step(Step(Step(s0, ops[0]), ops[1]), ops[2]));
    assert [] + Request(1, first)[0..sent] == Request(1, first)[..sent];
  }

  /**
   * A whole run: the first call's send fails after `sent` bytes, the second call is told what became of
   * those bytes followed by the start of its own message.
   */
  lemma TornRun(expected: nat, first: Report, next: Report, accepted: bool, sent: nat)
    requires ValidSize(first) && ValidSize(next) && 4 <= sent < MESSAGE_SIZE
    ensures |Run(expected, CutShort(first, sent)).session.frame| <= MESSAGE_SIZE
    ensures var s := Run(expected, CutShort(first, sent));
            var t := Run(expected, CutShort(first, sent) + ([ByClient(SendFails)] + Misleading(s, next, accepted)));
            var mixed := Request(1, first)[..sent] + Request(2, next)[..MESSAGE_SIZE - sent];
            && |mixed| == MESSAGE_SIZE && mixed != Request(2, next)
            && |t.client.outcomes| == 2
            && t.client.outcomes[1]
               == Outcome(2, next, Status(Answer(mixed, Verdict(Values(mixed), expected, accepted))))
  {
    hide StepAll, Encode, Request, Inv, Torn, Misleading, NeverTornFrom, Step, OwnAnswer, Verdict, Values, Frame;
    hide OutcomeOk;
    RequestStarts(1, first);
    RequestStarts(2, next);
    CutShortState(expected, first, sent);
    CreatedKeeps(expected);
    WithoutFailuresNeverTorn(Created(expected), CutShort(first, sent));
    StepAllKeeps(Created(expected), CutShort(first, sent), expected);
    var s := Run(expected, CutShort(first, sent));
    assert Stream(s) == Request(1, first)[..sent];
    TornWhenLive(s);
    TornSendMisleads(s, next, accepted, expected);
    StepAllConcat(Created(expected), CutShort(first, sent), [ByClient(SendFails)] + Misleading(s, next, accepted));
    StepAllFirst(s, ByClient(SendFails), Misleading(s, next, accepted));
    MixedDiffers(first, next, sent);
  }

  lemma MixedDiffers(first: Report, next: Report, sent: nat)
    requires ValidSize(first) && ValidSize(next) && 4 <= sent < MESSAGE_SIZE
    ensures Request(1, first)[..sent] + Request(2, next)[..MESSAGE_SIZE - sent] != Request(2, next)
  {
    hide Encode, Request;
    RequestStarts(1, first);
    RequestStarts(2, next);
    RequestKind(1, first);
    RequestKind(2, next);
    var mixed := Request(1, first)[..sent] + Request(2, next)[..MESSAGE_SIZE - sent];
    assert mixed[0].call == 1;
  }

  lemma RequestKind(call: nat, report: Report)
    requires |report| <= MAX_DATA
    ensures Request(call, report)[4].value == SUBMIT
    ensures forall i :: 0 <= i < MESSAGE_SIZE ==> Request(call, report)[i].call == call
  {
    hide Encode;
    EncodedFields(SUBMIT, report);
  }

  /** The socket is shut and nobody is waiting on it. */
  predicate Dead(s: State) {
    s.wire.shut && !s.client.caller.Waiting? && !s.client.caller.Expired?
  }

  /** After a timeout or a close, the connection stays dead: no call ever returns a status again. */
  lemma DeadStaysDead(s: State, op: Op)
    requires Dead(s)
    ensures Dead(Step(s, op))
    ensures |s.client.outcomes| <= |Step(s, op).client.outcomes|
    ensures forall i :: |s.client.outcomes| <= i < |Step(s, op).client.outcomes| ==>
              !Step(s, op).client.outcomes[i].result.Status?
  {
    hide Word, Values, Verdict, Frame, Encode;
  }

  lemma {:induction false} DeadForGood(s: State, ops: seq<Op>)
    requires Dead(s)
    ensures |s.client.outcomes| <= |StepAll(s, ops).client.outcomes|
    ensures forall i :: |s.client.outcomes| <= i < |StepAll(s, ops).client.outcomes| ==>
              !StepAll(s, ops).client.outcomes[i].result.Status?
    decreases |ops|
  {
    hide Step, Dead;
    if ops != [] {
      var next := Step(s, ops[0]);
      DeadStaysDead(s, ops[0]);
      OutcomesExtend(s, ops[0]);
      DeadForGood(next, ops[1..]);
      OutcomesExtendAll(next, ops[1..]);
    }
  }

  lemma OutcomesExtend(s: State, op: Op)
    ensures s.client.outcomes <= Step(s, op).client.outcomes
  {
    hide Word, Values, Verdict, Frame, Encode;
  }

  lemma {:induction false} OutcomesExtendAll(s: State, ops: seq<Op>)
    ensures s.client.outcomes <= StepAll(s, ops).client.outcomes
    decreases |ops|
  {
    hide Step;
    if ops != [] {
      OutcomesExtend(s, ops[0]);
      OutcomesExtendAll(Step(s, ops[0]), ops[1..]);
    }
  }

  /**
   * Whatever is still in flight when a call gives up after ten seconds, or when the gamepad is closed:
   * no call that ends later returns a status.
   */
  lemma ShutdownIsFinal(s: State, ops: seq<Op>)
    requires s.client.caller.Expired? || s.client.caller.Closing?
    ensures var shut := Step(s, ByClient(if s.client.caller.Expired? then Shutdown else FinishClose));
            var later := StepAll(shut, ops).client.outcomes;
            && s.client.outcomes <= shut.client.outcomes <= later
            && forall i :: |s.client.outcomes| <= i < |later| ==> !later[i].result.Status?
  {
    hide StepAll;
    var shut := Step(s, ByClient(if s.client.caller.Expired? then Shutdown else FinishClose));
    DeadForGood(shut, ops);
    OutcomesExtendAll(shut, ops);
  }

  // ----- Every call returns once -----------------------------------------------------------------

  /** The call was begun, with the lock held; the others were turned away before. */
  predicate Returned(o: Outcome) {
    o.result.Status? || o.result.Unavailable?
  }

  /** Calls return one at a time, in the order they were begun, and none twice. */
  predicate OnceEach(c: Client) {
    && (forall i, j :: 0 <= i < j < |c.outcomes| && Returned(c.outcomes[i]) && Returned(c.outcomes[j]) ==>
          c.outcomes[i].call < c.outcomes[j].call)
    && (forall i :: 0 <= i < |c.outcomes| && Returned(c.outcomes[i]) ==>
          c.outcomes[i].call < c.calls || (c.outcomes[i].call == c.calls && c.caller.Free?))
  }

  /** A step ends the call in progress, turns one away, begins one, or does none of these. */
  predicate CallMoves(c: Client, d: Client) {
    || (d.outcomes == c.outcomes && d.calls == c.calls && (c.caller.Free? ==> d.caller.Free?))
    || (d.outcomes == c.outcomes && d.calls == c.calls + 1)
    || (d.calls == c.calls && d.caller == c.caller && |d.outcomes| == |c.outcomes| + 1
        && d.outcomes == c.outcomes + [d.outcomes[|c.outcomes|]] && !Returned(d.outcomes[|c.outcomes|]))
    || (d.calls == c.calls && d.caller.Free? && !c.caller.Free? && |d.outcomes| == |c.outcomes| + 1
        && d.outcomes == c.outcomes + [d.outcomes[|c.outcomes|]] && d.outcomes[|c.outcomes|].call == c.calls)
  }

  lemma ClientMoves(c: Client, w: Wire, op: ClientOp)
    ensures CallMoves(c, ClientStep(c, w, op).0)
  {
    hide Request, Farewell, ValidSize;
  }

  lemma StepMoves(s: State, op: Op)
    ensures CallMoves(s.client, Step(s, op).client)
  {
    hide ClientStep, SessionStep, CallMoves;
    match op
    case ByClient(o) => ClientMoves(s.client, s.wire, o);
    case BySession(_) => Unmoved(s.client);
  }

  lemma Unmoved(c: Client)
    ensures CallMoves(c, c)
  {
  }

  lemma MovesKeepOnce(c: Client, d: Client)
    requires CallMoves(c, d) && OnceEach(c)
    ensures OnceEach(d)
  {
    hide Returned;
  }

  lemma StepKeepsOnce(s: State, op: Op)
    requires OnceEach(s.client)
    ensures OnceEach(Step(s, op).client)
  {
    hide Step, OnceEach, CallMoves;
    StepMoves(s, op);
    MovesKeepOnce(s.client, Step(s, op).client);
  }

  lemma {:induction false} StepAllKeepsOnce(s: State, ops: seq<Op>)
    requires OnceEach(s.client)
    ensures OnceEach(StepAll(s, ops).client)
    decreases |ops|
  {
    hide Step, OnceEach;
    if ops != [] {
      StepKeepsOnce(s, ops[0]);
      StepAllKeepsOnce(Step(s, ops[0]), ops[1..]);
    }
  }

  /** In every interleaving, torn sends included, every call begun returns at most once, in turn. */
  lemma RunReturnsOnce(expected: nat, ops: seq<Op>)
    ensures OnceEach(Run(expected, ops).client)
  {
    StepAllKeepsOnce(Created(expected), ops);
  }

  // ----- The threads -------------------------------------------------------------------------

  /** A connected pair of stream sockets; `up` leads to the broker. */
  class Socket {
    var up: seq<Piece>
    var down: seq<Event>
    var shut: bool

    function View(): Wire
      reads this
    {
      Wire(up, down, shut)
    }

    constructor ()
      ensures View() == Wire([], [], false)
    {
      up, down, shut := [], [], false;
    }
  }

  /**
   * The client's end. `caller`, `calls`, `report` and `outcomes` are the program position, locals and
   * results of the threads calling in; the rest are the object's own fields.
   */
  class MacosGamepad {
    const socket: Socket
    var caller: Caller
    var calls: nat
    var report: Report
    var fdOpen: bool
    var responseReady: bool
    var response: Answer
    var disconnected: bool
    var outcomes: seq<Outcome>

    function View(): Client
      reads this
    {
      Client(caller, calls, report, fdOpen, responseReady, response, disconnected, outcomes)
    }

    ghost function Both(): (Client, Wire)
      reads this, socket
    {
      (View(), socket.View())
    }

    constructor (socket: Socket)
      ensures this.socket == socket && View() == Created(0).client
    {
      this.socket := socket;
      caller, calls, report, fdOpen := Free, 0, [], true;
      responseReady, response, disconnected, outcomes := false, Answer([], Invalid), false, [];
    }

    /** Hand the result to the caller and release `call_mutex`. */
    method Return(result: Result)
      modifies this`caller, this`outcomes
      ensures View() == Ended(old(View()), result)
    {
      outcomes := outcomes + [Outcome(calls, report, result)];
      caller := Free;
    }

    method SubmitReport(submitted: Report)
      modifies this
      ensures Both() == ClientStep(old(View()), old(socket.View()), Submit(submitted))
    {
      if |submitted| == 0 || |submitted| > MAX_REPORT {
        outcomes := outcomes + [Outcome(calls, submitted, InvalidArgument)];
        return;
      }
      if !caller.Free? {
        return;
      }
      if !fdOpen {
        outcomes := outcomes + [Outcome(calls, submitted, DeviceClosed)];
        return;
      }
      caller, calls, report := Preparing, calls + 1, submitted;
    }

    method ForgetResponse()
      requires caller.Preparing?
      modifies this`responseReady, this`caller
      ensures Both() == ClientStep(old(View()), old(socket.View()), ClearResponse)
    {
      responseReady := false;
      caller := Sending(0);
    }

    /** One turn of the transfer loop: the system takes some bytes, or the send fails. */
    method SendSome() returns (op: ClientOp)
      requires caller.Sending? && |report| <= MAX_DATA && caller.sent < MESSAGE_SIZE
      modifies this`caller, this`outcomes, socket`up
      ensures op.Send? || op.SendFails?
      ensures Both() == ClientStep(old(View()), old(socket.View()), op)
    {
      var sent := caller.sent;
      var failed := *;
      if socket.shut || failed {
        Return(Unavailable);
        return SendFails;
      }
      var count: nat :| 0 < count <= MESSAGE_SIZE - sent;
      socket.up := socket.up + Request(calls, report)[sent..sent + count];
      caller := if sent + count == MESSAGE_SIZE then Waiting else Sending(sent + count);
      return Send(count);
    }

    /** The wait ends: with a response, with the reader gone, or after ten seconds with neither. */
    method AwaitResponse() returns (op: ClientOp)
      requires caller.Waiting?
      modifies this`caller, this`outcomes
      ensures op.Wake? || op.Timeout?
      ensures Both() == ClientStep(old(View()), old(socket.View()), op)
    {
      if responseReady {
        Return(Status(response));
        return Wake;
      }
      if disconnected {
        Return(Unavailable);
        return Wake;
      }
      caller := Expired;
      return Timeout;
    }

    method ShutdownAfterTimeout()
      requires caller.Expired?
      modifies this`caller, this`outcomes, socket`shut
      ensures Both() == ClientStep(old(View()), old(socket.View()), Shutdown)
    {
      socket.shut := true;
      Return(Unavailable);
    }

    method StartClose()
      modifies this`caller, this`calls
      ensures Both() == ClientStep(old(View()), old(socket.View()), BeginClose)
    {
      if caller.Free? && fdOpen {
        caller, calls := Closing(0), calls + 1;
      }
    }

    method EndClose()
      requires caller.Closing?
      modifies this`caller, this`fdOpen, socket`shut
      ensures Both() == ClientStep(old(View()), old(socket.View()), FinishClose)
    {
      socket.shut := true;
      fdOpen := false;
      caller := Free;
    }

    /** One turn of the reader's loop. */
    method ReadOne() returns (op: ClientOp)
      requires !disconnected
      modifies this`responseReady, this`response, this`disconnected, socket`down
      ensures op.Read? || op.ReaderEnds?
      ensures Both() == ClientStep(old(View()), old(socket.View()), op)
    {
      var failed := *;
      if failed || socket.down == [] {
        disconnected := true;
        return ReaderEnds;
      }
      var event := socket.down[0];
      socket.down := socket.down[1..];
      if event.Answered? {
        response, responseReady := event.answer, true;
      }
      return Read;
    }
  }

  /** The broker's end. */
  class DeviceSession {
    const socket: Socket
    const expected: nat
    var frame: seq<Piece>
    var running: bool

    function View(): Session
      reads this
    {
      Session(frame, running, expected)
    }

    ghost function Both(): (Session, Wire)
      reads this, socket
    {
      (View(), socket.View())
    }

    constructor (socket: Socket, expected: nat)
      ensures this.socket == socket && View() == Created(expected).session
    {
      this.socket, this.expected := socket, expected;
      frame, running := [], true;
    }

    /** A failed send closes the session and shuts the socket. */
    method Write(event: Event) returns (sent: bool)
      modifies this`running, socket`down, socket`shut
      ensures sent ==> socket.down == old(socket.down) + [event]
      ensures sent ==> running == old(running) && socket.shut == old(socket.shut)
      ensures !sent ==> socket.down == old(socket.down) && !running && socket.shut
    {
      sent := *;
      if sent {
        socket.down := socket.down + [event];
      } else {
        running := false;
        socket.shut := true;
      }
    }

    method ReceiveSome(count: nat)
      requires running && count <= |socket.up| && |frame| + count <= MESSAGE_SIZE
      modifies this`frame, socket`up
      ensures Both() == SessionStep(old(View()), old(socket.View()), Receive(count))
    {
      frame := frame + socket.up[..count];
      socket.up := socket.up[count..];
    }

    /** A whole message is in: end on a close or a wrong version, otherwise answer it once. */
    method HandleRequest(accepted: bool) returns (sent: bool)
      requires running && |frame| == MESSAGE_SIZE
      modifies this`frame, this`running, socket`down, socket`shut
      ensures Both() == SessionStep(old(View()), old(socket.View()), Handle(accepted, sent))
    {
      var bytes := Values(frame);
      if Word(bytes, 0) != PROTOCOL_VERSION || Word(bytes, 4) == CLOSE {
        running, sent := false, true;
        return;
      }
      sent := Write(Answered(Answer(frame, Verdict(bytes, expected, accepted))));
      if sent {
        frame := [];
      }
    }

    method OutputReport(report: Report) returns (sent: bool)
      modifies this`running, socket`down, socket`shut
      ensures Both() == SessionStep(old(View()), old(socket.View()), Emit(report, sent))
    {
      if !running {
        return false;
      }
      sent := Write(Output(report));
    }

    method Finish()
      modifies this`running
      ensures Both() == SessionStep(old(View()), old(socket.View()), End)
    {
      running := false;
    }
  }
}
