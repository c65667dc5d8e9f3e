/** The routing of replies between the tasks of the asyncio client, as a state machine whose steps are the pieces of
    code between two suspension points. */
module AioRouting {
  import opened Options
  import opened Responses

  /** `pending` is the request that was written but whose event is not yet registered; its task holds the send lock.
      `stranded` is the request whose reply made the receiver's assertion fail.  `calls`, `read` and `returned`
      record every request ever sent, every reply ever read, and what each request returned. */
  datatype State = State(
    refNo: nat,
    outstanding: Outstanding,
    pending: Option<nat>,
    events: map<nat, bool>,
    replyQueue: map<nat, Response>,
    messages: seq<Response>,
    receiving: bool,
    stranded: Option<nat>,
    calls: map<nat, nat>,
    read: map<nat, Response>,
    returned: map<nat, Response>)

  const INITIAL := State(0, map[], None, map[], map[], [], true, None, map[], map[], map[])

  /** Begin: a task sends its request and waits for the writer to drain.  Skip: it fails to, with raw bytes that open
      with no call number, and has used up a reference number.  Register: it goes on, creates its event and releases
      the lock.  Receive: the receiver reads a response and routes it.  Wake: a task whose event was set takes its
      reply.  StopReceiving: the receiver ends with an error of the connection. */
  datatype Step =
    | Begin(callNo: nat)
    | Skip
    | Register
    | Receive(resp: Response)
    | Wake(ref: nat)
    | StopReceiving

  ghost predicate Enabled(d: Dialect, s: State, step: Step) {
    match step
    case Begin(_) => s.pending.None?
    case Skip => s.pending.None?
    case Register => s.pending.Some?
    case Receive(resp) => s.receiving && exists out' :: Answers(d, s.outstanding, resp, out')
    case Wake(ref) => ref in s.events && s.events[ref] && ref in s.replyQueue
    case StopReceiving => s.receiving
  }

  /** _receive_response */
  function Route(s: State, resp: Response): State {
    if resp.Message? then s.(messages := s.messages + [resp])
    else
      var ref := resp.refNo;
      var t := s.(replyQueue := s.replyQueue[ref := resp], read := s.read[ref := resp]);
      if ref in s.events then t.(events := s.events[ref := true])
      else t.(receiving := false, stranded := Some(ref))
  }

  function Next(s: State, step: Step): State {
    match step
    case Begin(callNo) =>
      var ref := s.refNo + 1;
      s.(refNo := ref, outstanding := s.outstanding[ref := callNo],
         calls := s.calls[ref := callNo], pending := Some(ref))
    case Skip => s.(refNo := s.refNo + 1)
    case Register =>
      if s.pending.None? then s else s.(events := s.events[s.pending.value := false], pending := None)
    case Receive(resp) =>
      Route(if resp.Message? then s else s.(outstanding := s.outstanding - {resp.refNo}), resp)
    case Wake(ref) =>
      if ref !in s.replyQueue then s
      else s.(events := s.events - {ref}, replyQueue := s.replyQueue - {ref},
              returned := s.returned[ref := s.replyQueue[ref]])
    case StopReceiving => s.(receiving := false)
  }

  /** The reply read for k is of the type of the call sent under k. */
  ghost predicate Fits(d: Dialect, resp: Response, k: nat, callNo: nat) {
    !resp.Message? && resp.refNo == k && Answers(d, map[k := callNo], resp, map[])
  }

  /** Where number k can be: unsent; outstanding and unread; read and waiting for its task; returned. */
  ghost predicate InPlace(d: Dialect, s: State, k: nat) {
    && (k in s.calls ==> 1 <= k <= s.refNo)
    && (k in s.outstanding ==> k in s.calls && s.outstanding[k] == s.calls[k])
    && (k in s.calls ==> (k in s.outstanding <==> k !in s.read))
    && (k in s.read ==> k in s.calls && Fits(d, s.read[k], k, s.calls[k]))
    && (k in s.read <==> k in s.replyQueue || k in s.returned)
    && !(k in s.replyQueue && k in s.returned)
    && (k in s.replyQueue ==> s.replyQueue[k] == s.read[k])
    && (k in s.returned ==> s.returned[k] == s.read[k])
    && (k in s.calls <==> k in s.events || s.pending == Some(k) || k in s.returned)
    && !(k in s.events && (s.pending == Some(k) || k in s.returned)) && !(s.pending == Some(k) && k in s.returned)
    && (k in s.events && s.events[k] ==> k in s.replyQueue)
    && (k in s.replyQueue ==> (k in s.events && s.events[k]) || s.stranded == Some(k))
    && (s.stranded == Some(k) ==> !s.receiving && k in s.replyQueue && (k in s.events ==> !s.events[k]))
  }

  ghost predicate Consistent(d: Dialect, s: State) {
    forall k: nat :: InPlace(d, s, k)
  }

  lemma AnswersAlone(d: Dialect, out: Outstanding, resp: Response, out': Outstanding)
    requires Answers(d, out, resp, out') && !resp.Message?
    ensures resp.refNo in out && Fits(d, resp, resp.refNo, out[resp.refNo])
  {
    assert map[resp.refNo := out[resp.refNo]] - {resp.refNo} == map[];
  }

  lemma BeginKeeps(d: Dialect, s: State, callNo: nat, k: nat)
    requires s.pending.None? && InPlace(d, s, k) && InPlace(d, s, s.refNo + 1)
    ensures InPlace(d, Next(s, Begin(callNo)), k)
  {
  }

  lemma RegisterKeeps(d: Dialect, s: State, k: nat)
    requires s.pending.Some? && InPlace(d, s, k)
    ensures InPlace(d, Next(s, Register), k)
  {
  }

  lemma ReplyKeeps(d: Dialect, s: State, resp: Response, k: nat)
    requires s.receiving && !resp.Message? && InPlace(d, s, k) && InPlace(d, s, resp.refNo)
    requires resp.refNo in s.outstanding && Fits(d, resp, resp.refNo, s.outstanding[resp.refNo])
    ensures InPlace(d, Next(s, Receive(resp)), k)
  {
  }

  lemma WakeKeeps(d: Dialect, s: State, ref: nat, k: nat)
    requires Enabled(d, s, Wake(ref)) && InPlace(d, s, k)
    ensures InPlace(d, Next(s, Wake(ref)), k)
  {
  }

  lemma ReplyAnswersOne(d: Dialect, s: State, resp: Response)
    requires Enabled(d, s, Receive(resp)) && !resp.Message?
    ensures resp.refNo in s.outstanding && Fits(d, resp, resp.refNo, s.outstanding[resp.refNo])
  {
    var out' :| Answers(d, s.outstanding, resp, out');
    AnswersAlone(d, s.outstanding, resp, out');
  }

  /** Every step of every task keeps the invariant. */
  lemma StepKeeps(d: Dialect, s: State, step: Step)
    requires Consistent(d, s) && Enabled(d, s, step)
    ensures Consistent(d, Next(s, step))
  {
    if step.Receive? && !step.resp.Message? {
      ReplyAnswersOne(d, s, step.resp);
    }
    forall k: nat ensures InPlace(d, Next(s, step), k) {
      assert InPlace(d, s, k);
      match step
      case Begin(callNo) => BeginKeeps(d, s, callNo, k);
      case Skip =>
      case Register => RegisterKeeps(d, s, k);
      case Receive(resp) =>
        if !resp.Message? {
          ReplyKeeps(d, s, resp, k);
        }
      case Wake(ref) => WakeKeeps(d, s, ref, k);
      case StopReceiving =>
    }
  }

  /** A sequence of steps, each enabled where it is taken. */
  ghost predicate Trace(d: Dialect, s: State, steps: seq<Step>)
    decreases |steps|
  {
    steps == [] || (Enabled(d, s, steps[0]) && Trace(d, Next(s, steps[0]), steps[1..]))
  }

  function Final(s: State, steps: seq<Step>): State
    decreases |steps|
  {
    if steps == [] then s else Final(Next(s, steps[0]), steps[1..])
  }

  /** The invariant holds after every interleaving of the tasks. */
  lemma {:induction false} EveryInterleaving(d: Dialect, s: State, steps: seq<Step>)
    requires Consistent(d, s) && Trace(d, s, steps)
    ensures Consistent(d, Final(s, steps))
    decreases |steps|
  {
    if steps != [] {
      StepKeeps(d, s, steps[0]);
      EveryInterleaving(d, Next(s, steps[0]), steps[1..]);
    }
  }

  /** What a request returned was read for its own number, at the type of its own call, and is not changed or
      returned again by anything that follows. */
  lemma {:induction false} RepliesReachTheirCallers(d: Dialect, steps: seq<Step>, later: seq<Step>, ref: nat)
    requires Trace(d, INITIAL, steps) && Trace(d, Final(INITIAL, steps), later)
    requires ref in Final(INITIAL, steps).returned
    ensures var s, t := Final(INITIAL, steps), Final(Final(INITIAL, steps), later);
            && ref in s.calls && Fits(d, s.returned[ref], ref, s.calls[ref])
            && ref in t.returned && t.returned[ref] == s.returned[ref]
            && !Enabled(d, t, Wake(ref))
  {
    var s := Final(INITIAL, steps);
    EveryInterleaving(d, INITIAL, steps);
    assert InPlace(d, s, ref);
    EveryInterleaving(d, s, later);
    ReturnedStays(d, s, later, ref);
    assert InPlace(d, Final(s, later), ref);
  }

  lemma {:induction false} ReturnedStays(d: Dialect, s: State, steps: seq<Step>, ref: nat)
    requires Consistent(d, s) && Trace(d, s, steps) && ref in s.returned
    ensures ref in Final(s, steps).returned && Final(s, steps).returned[ref] == s.returned[ref]
    decreases |steps|
  {
    if steps != [] {
      assert InPlace(d, s, ref);
      StepKeeps(d, s, steps[0]);
      ReturnedStays(d, Next(s, steps[0]), steps[1..], ref);
    }
  }

  // ---------- What is read is kept ----------

  /** The messages among what is received. */
  function MessagesOf(steps: seq<Step>): seq<Response>
    decreases |steps|
  {
    if steps == [] then []
    else MessageIn(steps[0]) + MessagesOf(steps[1..])
  }

  function MessageIn(step: Step): seq<Response> {
    if step.Receive? && step.resp.Message? then [step.resp] else []
  }

  lemma StepQueues(s: State, step: Step, later: seq<Response>)
    ensures Next(s, step).messages + later == s.messages + (MessageIn(step) + later)
  {
    if step.Receive? && step.resp.Message? {
      assert s.messages + [step.resp] + later == s.messages + ([step.resp] + later);
    } else {
      assert [] + later == later;
    }
  }

  /** Every message that is received has its place, behind those that were received before. */
  lemma {:induction false} MessageHasPlace(steps: seq<Step>, i: nat)
    requires i < |steps|
    ensures match steps[i]
            case Receive(Message(msgNo, msg, payload)) =>
              MessagesOf(steps[..i]) + [Message(msgNo, msg, payload)] == MessagesOf(steps[..i + 1])
            case _ => MessagesOf(steps[..i]) == MessagesOf(steps[..i + 1])
    ensures MessagesOf(steps[..i + 1]) <= MessagesOf(steps)
    decreases |steps|
  {
    assert steps[..i + 1][1..] == steps[1..][..i];
    if i > 0 {
      assert steps[..i][1..] == steps[1..][..i - 1];
      MessageHasPlace(steps[1..], i - 1);
    } else {
      assert MessagesOf(steps[1..][..0]) == [];
    }
  }

  /** No message is lost, doubled or moved: the queue holds those that were received, in order. */
  lemma {:induction false} MessagesInOrder(s: State, steps: seq<Step>)
    ensures Final(s, steps).messages == s.messages + MessagesOf(steps)
    decreases |steps|
  {
    if steps == [] {
      assert s.messages + [] == s.messages;
    } else {
      MessagesInOrder(Next(s, steps[0]), steps[1..]);
      StepQueues(s, steps[0], MessagesOf(steps[1..]));
    }
  }

  lemma {:induction false} ReadStays(d: Dialect, s: State, steps: seq<Step>, ref: nat)
    requires Consistent(d, s) && Trace(d, s, steps) && ref in s.read
    ensures ref in Final(s, steps).read && Final(s, steps).read[ref] == s.read[ref]
    decreases |steps|
  {
    if steps != [] {
      assert InPlace(d, s, ref);
      StepKeeps(d, s, steps[0]);
      ReadStays(d, Next(s, steps[0]), steps[1..], ref);
    }
  }

  /** Every reply that is received is kept as it was received, raw bytes included, until its request returns with it. */
  lemma {:induction false} ReceivedIsKept(d: Dialect, s: State, steps: seq<Step>, i: nat)
    requires Consistent(d, s) && Trace(d, s, steps)
    requires i < |steps| && steps[i].Receive? && !steps[i].resp.Message?
    ensures var t, ref, reply := Final(s, steps), steps[i].resp.refNo, steps[i].resp;
            && ref in t.read && t.read[ref] == reply
            && (ref in t.returned && t.returned[ref] == reply) != (ref in t.replyQueue && t.replyQueue[ref] == reply)
    decreases |steps|
  {
    var next := Next(s, steps[0]);
    StepKeeps(d, s, steps[0]);
    if i == 0 {
      ReadStays(d, next, steps[1..], steps[0].resp.refNo);
    } else {
      ReceivedIsKept(d, next, steps[1..], i - 1);
    }
    EveryInterleaving(d, s, steps);
    assert InPlace(d, Final(s, steps), steps[i].resp.refNo);
  }

  /** And nothing else is returned: what is kept for a number was received for it. */
  lemma {:induction false} KeptWasReceived(d: Dialect, s: State, steps: seq<Step>, ref: nat)
    requires Consistent(d, s) && Trace(d, s, steps) && ref in Final(s, steps).read && ref !in s.read
    ensures exists i :: 0 <= i < |steps| && steps[i] == Receive(Final(s, steps).read[ref])
    decreases |steps|
  {
    if steps != [] {
      var next := Next(s, steps[0]);
      StepKeeps(d, s, steps[0]);
      if ref in next.read {
        ReadStays(d, next, steps[1..], ref);
        NewlyRead(s, steps[0], ref);
      } else {
        KeptWasReceived(d, next, steps[1..], ref);
        ReceivedLater(steps, Final(s, steps).read[ref]);
      }
    }
  }

  lemma RouteReads(s: State, resp: Response)
    ensures Route(s, resp).read == if resp.Message? then s.read else s.read[resp.refNo := resp]
  {
  }

  lemma StepReads(s: State, step: Step)
    ensures step.Receive? && !step.resp.Message? ==> Next(s, step).read == s.read[step.resp.refNo := step.resp]
    ensures !(step.Receive? && !step.resp.Message?) ==> Next(s, step).read == s.read
  {
    if step.Receive? {
      RouteReads(if step.resp.Message? then s else s.(outstanding := s.outstanding - {step.resp.refNo}), step.resp);
    }
  }

  lemma NewlyRead(s: State, step: Step, ref: nat)
    requires ref in Next(s, step).read && ref !in s.read
    ensures step == Receive(Next(s, step).read[ref])
  {
    StepReads(s, step);
  }

  lemma ReceivedLater(steps: seq<Step>, resp: Response)
    requires steps != [] && exists i :: 0 <= i < |steps[1..]| && steps[1..][i] == Receive(resp)
    ensures exists i :: 0 <= i < |steps| && steps[i] == Receive(resp)
  {
    var i :| 0 <= i < |steps[1..]| && steps[1..][i] == Receive(resp);
    assert steps[i + 1] == Receive(resp);
  }

  /** A request number is never used twice, and neither table of the connection and the client holds it yet: the
      assertions in send_request and _request never fail. */
  lemma FreshNumbers(d: Dialect, s: State)
    requires Consistent(d, s)
    ensures var ref := s.refNo + 1;
            ref !in s.calls && ref !in s.outstanding && ref !in s.events && ref !in s.replyQueue && ref !in s.returned
    ensures s.pending.Some? ==> s.pending.value !in s.events
  {
    assert InPlace(d, s, s.refNo + 1);
    if s.pending.Some? {
      assert InPlace(d, s, s.pending.value);
    }
  }

  /** A set event means that the reply is queued: the assertion in _handle_reply never fails. */
  lemma SetEventHasReply(d: Dialect, s: State, ref: nat)
    requires Consistent(d, s) && ref in s.events && s.events[ref]
    ensures Enabled(d, s, Wake(ref))
  {
    assert InPlace(d, s, ref);
  }

  /** The receiver's assertion holds for a reply exactly unless its request was written but not yet registered. */
  lemma ReceiverAssertion(d: Dialect, s: State, ref: nat)
    requires Consistent(d, s) && ref in s.outstanding
    ensures ref in s.events <==> s.pending != Some(ref)
  {
    assert InPlace(d, s, ref);
  }

  /** A reply is read whose request was written but is not yet registered. */
  predicate Overtakes(s: State, step: Step) {
    step.Receive? && !step.resp.Message? && s.pending == Some(step.resp.refNo)
  }

  predicate NoneOvertakes(s: State, steps: seq<Step>)
    decreases |steps|
  {
    steps == [] || (!Overtakes(s, steps[0]) && NoneOvertakes(Next(s, steps[0]), steps[1..]))
  }

  lemma StrandedByOvertaking(d: Dialect, s: State, step: Step)
    requires Consistent(d, s) && Enabled(d, s, step) && s.stranded.None?
    ensures Next(s, step).stranded.None? <==> !Overtakes(s, step)
  {
    if step.Receive? && !step.resp.Message? {
      ReplyAnswersOne(d, s, step.resp);
      ReceiverAssertion(d, s, step.resp.refNo);
    }
  }

  /** In every interleaving, the receiver's assertion never fails if and only if no reply is read between the sending
      and the registering of its own request. */
  lemma {:induction false} StrandedIffOvertaken(d: Dialect, s: State, steps: seq<Step>)
    requires Consistent(d, s) && Trace(d, s, steps) && s.stranded.None?
    ensures Final(s, steps).stranded.None? <==> NoneOvertakes(s, steps)
    decreases |steps|
  {
    if steps != [] {
      var t := Next(s, steps[0]);
      StrandedByOvertaking(d, s, steps[0]);
      StepKeeps(d, s, steps[0]);
      if t.stranded.None? {
        StrandedIffOvertaken(d, t, steps[1..]);
      } else {
        StrandedStays(d, t, steps[1..]);
      }
    }
  }

  lemma {:induction false} StrandedStays(d: Dialect, s: State, steps: seq<Step>)
    requires Consistent(d, s) && Trace(d, s, steps) && s.stranded.Some?
    ensures Final(s, steps).stranded == s.stranded
    decreases |steps|
  {
    if steps != [] {
      assert InPlace(d, s, s.stranded.value);
      StepKeeps(d, s, steps[0]);
      StrandedStays(d, Next(s, steps[0]), steps[1..]);
    }
  }

  /** Then every reply that was read and not yet returned has set the event of its request. */
  lemma NobodyStranded(d: Dialect, s: State, steps: seq<Step>)
    requires Consistent(d, s) && Trace(d, s, steps) && s.stranded.None? && NoneOvertakes(s, steps)
    ensures forall k :: k in Final(s, steps).replyQueue ==> Enabled(d, Final(s, steps), Wake(k))
  {
    StrandedIffOvertaken(d, s, steps);
    EveryInterleaving(d, s, steps);
    forall k | k in Final(s, steps).replyQueue ensures Enabled(d, Final(s, steps), Wake(k)) {
      assert InPlace(d, Final(s, steps), k);
    }
  }

  /** Only sending makes a request pending, and only a pending one can be overtaken. */
  lemma NothingPending(s: State, step: Step)
    requires s.pending.None?
    ensures !Overtakes(s, step) && (!step.Begin? ==> Next(s, step).pending.None?)
    ensures Next(Next(s, step), Register).pending.None? && !Overtakes(Next(s, step), Register)
  {
  }

  /** When every request is registered right after it is sent, none is overtaken. */
  lemma {:induction false} AtomicSendsStrandNobody(s: State, steps: seq<Step>)
    requires s.pending.None?
    requires forall i :: 0 <= i < |steps| && steps[i].Begin? ==> i + 1 < |steps| && steps[i + 1].Register?
    ensures NoneOvertakes(s, steps)
    decreases |steps|
  {
    if steps != [] {
      NothingPending(s, steps[0]);
    }
    if steps != [] && steps[0].Begin? {
      assert steps[1].Register? && steps[1..][0] == steps[1] && steps[1..][1..] == steps[2..];
      AtomicSendsStrandNobody(Next(Next(s, steps[0]), Register), steps[2..]);
      assert NoneOvertakes(Next(s, steps[0]), steps[1..]);
    } else if steps != [] {
      AtomicSendsStrandNobody(Next(s, steps[0]), steps[1..]);
    }
  }

  /** A reply that overtakes the registration of its request strands the caller: whatever happens later, the request
      does not return, although its reply was read. */
  lemma {:induction false} OvertakenRequestNeverReturns(d: Dialect, s: State, steps: seq<Step>, ref: nat)
    requires Consistent(d, s) && Trace(d, s, steps) && s.stranded == Some(ref)
    ensures ref in Final(s, steps).read && ref !in Final(s, steps).returned
    decreases |steps|
  {
    assert InPlace(d, s, ref);
    if steps != [] {
      StepKeeps(d, s, steps[0]);
      OvertakenRequestNeverReturns(d, Next(s, steps[0]), steps[1..], ref);
    }
  }

  /** The shortest such run: one request, whose reply is read before its event exists. */
  lemma OvertakingIsPossible(d: Dialect, callNo: nat, reply: Response)
    requires Fits(d, reply, 1, callNo)
    ensures var steps := [Begin(callNo), Receive(reply)];
            Trace(d, INITIAL, steps) && Final(INITIAL, steps).stranded == Some(1)
  {
    var s := Next(INITIAL, Begin(callNo));
    assert s.outstanding == map[1 := callNo];
    assert Answers(d, s.outstanding, reply, map[]);
    assert Trace(d, Next(s, Receive(reply)), []);
    assert [Begin(callNo), Receive(reply)][1..] == [Receive(reply)];
    assert Trace(d, s, [Receive(reply)]);
    assert Final(s, [Receive(reply)]) == Next(s, Receive(reply)) by {
      assert [Receive(reply)][1..] == [];
    }
  }
}

/** The asyncio client itself, one method for each piece of code between two suspension points. */
module AioTasks {
  import opened Protocol
  import opened Options
  import opened Wire
  import opened Requests
  import opened Responses
  import opened Connections
  import opened AioRouting

  datatype Returned = RawBytes(raw: bytes) | OkReply(value: Value) | ErrorRaised(errorNo: nat, errorStatus: nat)

  /** What the connection reads is a step of the machine. */
  lemma ParsedStep(d: Dialect, s: State, b: bytes)
    requires Consistent(d, s) && s.receiving
    ensures match ParseResponse(d, s.outstanding, b)
            case Ok((resp, out'), _) =>
              && Consistent(d, Next(s, Receive(Raw(resp))))
              && Next(s, Receive(Raw(resp))) == Route(s.(outstanding := out'), Raw(resp))
            case _ => Consistent(d, Next(s, StopReceiving))
  {
    ResponseAnswers(d, s.outstanding, b);
    var p := ParseResponse(d, s.outstanding, b);
    if p.Ok? {
      assert Answers(d, s.outstanding, Raw(p.value.0), p.value.1);
      StepKeeps(d, s, Receive(Raw(p.value.0)));
    } else {
      StepKeeps(d, s, StopReceiving);
    }
  }

  class AioClient {
    const conn: AioConnection
    var replyQueue: map<nat, Response>
    var events: map<nat, bool>
    var messages: seq<Response>
    var receiving: bool
    /** The send lock: held from sending to registering. */
    var pending: Option<nat>
    ghost var stranded: Option<nat>
    ghost var calls: map<nat, nat>
    ghost var read: map<nat, Response>
    ghost var returned: map<nat, Response>

    constructor (conn: AioConnection)
      requires conn.Valid() && conn.refNo == 0 && conn.outstanding == map[]
      ensures Valid() && this.conn == conn && Now() == INITIAL
    {
      this.conn := conn;
      replyQueue, events, messages, receiving, pending := map[], map[], [], true, None;
      stranded, calls, read, returned := None, map[], map[], map[];
    }

    ghost function Now(): State
      reads this, conn
    {
      State(conn.refNo, conn.outstanding, pending, events, replyQueue, messages, receiving,
            stranded, calls, read, returned)
    }

    ghost predicate Valid()
      reads this, conn, conn.buffer, conn.reader
    {
      conn.Valid() && Consistent(conn.dialect, Now())
    }

    /** _request, from taking the lock to waiting for the writer. */
    method BeginRequest(req: Request) returns (ref: nat)
      requires Valid() && pending.None?
      modifies this, conn`refNo, conn`outstanding, conn.reader`sent
      ensures Valid() && Now() == Next(old(Now()), Begin(req.callNo)) && ref == conn.refNo
      ensures conn.reader.sent == old(conn.reader.sent) + RequestLine(ref, req) && conn.Stream() == old(conn.Stream())
    {
      FreshNumbers(conn.dialect, Now());
      StepKeeps(conn.dialect, Now(), Begin(req.callNo));
      ref := conn.SendRequest(req);
      pending := Some(ref);
      calls := calls[ref := req.callNo];
    }

    /** The same with a request that is given as bytes; None stands for the exception that sends nothing and releases
        the lock. */
    method BeginRaw(request: bytes, toInt: bytes -> Option<nat>) returns (ref: Option<nat>)
      requires Valid() && pending.None?
      modifies this, conn`refNo, conn`outstanding, conn.reader`sent
      ensures Valid() && conn.Stream() == old(conn.Stream())
      ensures match toInt(FirstWord(request))
              case None => ref == None && Now() == Next(old(Now()), Skip) && conn.reader.sent == old(conn.reader.sent)
              case Some(callNo) =>
                && ref == Some(conn.refNo) && Now() == Next(old(Now()), Begin(callNo))
                && conn.reader.sent == old(conn.reader.sent) + RawLine(conn.refNo, request)
    {
      ghost var step := if toInt(FirstWord(request)).Some? then Begin(toInt(FirstWord(request)).value) else Skip;
      FreshNumbers(conn.dialect, Now());
      StepKeeps(conn.dialect, Now(), step);
      ref := conn.SendRaw(request, toInt);
      if ref.Some? {
        pending := ref;
        calls := calls[ref.value := toInt(FirstWord(request)).value];
      }
    }

    /** _request, from there to waiting for the event. */
    method RegisterRequest()
      requires Valid() && pending.Some?
      modifies this
      ensures Valid() && Now() == Next(old(Now()), Register)
    {
      FreshNumbers(conn.dialect, Now());
      StepKeeps(conn.dialect, Now(), Register);
      var ref := pending.value;
      assert ref !in events;
      events := events[ref := false];
      pending := None;
    }

    /** The receiver goes on until it waits for bytes or has routed a response: one attempt to parse, then
        _receive_response. */
    method TryReceive()
      requires Valid() && receiving
      modifies this, conn`outstanding, conn`buffer, conn.buffer
      ensures Valid() && conn.reader.Pending() == old(conn.reader.Pending())
      ensures match ParseResponse(conn.dialect, old(conn.outstanding), old(conn.buffer.Current()))
              case Ok((resp, _), rest) =>
                Now() == Next(old(Now()), Receive(Raw(resp))) && conn.buffer.Current() == rest
              case Bad(_, rest) => Now() == Next(old(Now()), StopReceiving) && conn.buffer.Current() == rest
              case More => Now() == old(Now()) && conn.buffer.Current() == old(conn.buffer.Current())
    {
      ParsedStep(conn.dialect, Now(), conn.buffer.Current());
      var r := conn.TryParseResponse();
      if r.Done? {
        ReceiveResponse(r.value);
      } else if r.Raised? {
        receiving := false;
      }
    }

    /** The receiver is resumed: bytes have arrived, or the stream has ended.  Requests may have been sent since. */
    method ReceiveBytes()
      requires Valid() && receiving
      modifies this`receiving, conn.buffer, conn.reader
      ensures Valid() && conn.Stream() == old(conn.Stream())
      ensures Now() == if old(conn.reader.Pending()) == [] then Next(old(Now()), StopReceiving) else old(Now())
      ensures old(conn.reader.Pending()) != [] ==> |conn.reader.Pending()| < |old(conn.reader.Pending())|
    {
      StepKeeps(conn.dialect, Now(), StopReceiving);
      ghost var held := conn.buffer.Current();
      var data := conn.reader.Receive(1024);
      if |data| == 0 {
        receiving := false;
      } else {
        conn.buffer.Append(data);
        Regroup(held, data, conn.reader.Pending());
      }
    }

    /** _receive_response; a failing assertion ends the receiver. */
    method ReceiveResponse(resp: Response)
      modifies this
      ensures Now() == Route(old(Now()), resp)
    {
      if resp.Message? {
        messages := messages + [resp];
      } else {
        var ref := resp.refNo;
        replyQueue := replyQueue[ref := resp];
        read := read[ref := resp];
        if ref in events {
          events := events[ref := true];
        } else {
          receiving := false;
          stranded := Some(ref);
        }
      }
    }

    /** _request, woken by its event, with _handle_reply. */
    method FinishRequest(ref: nat, returnBytes: bool) returns (result: Returned)
      requires Valid() && ref in events && events[ref]
      modifies this
      ensures Valid() && Now() == Next(old(Now()), Wake(ref))
      ensures ref in read && result ==
                if returnBytes then RawBytes(read[ref].payload)
                else if read[ref].ErrorReply? then ErrorRaised(read[ref].errorNo, read[ref].errorStatus)
                else OkReply(read[ref].value)
    {
      SetEventHasReply(conn.dialect, Now(), ref);
      StepKeeps(conn.dialect, Now(), Wake(ref));
      assert InPlace(conn.dialect, Now(), ref);
      events := events - {ref};
      assert ref in replyQueue;
      var reply := replyQueue[ref];
      replyQueue := replyQueue - {ref};
      returned := returned[ref := reply];
      if returnBytes {
        return RawBytes(reply.payload);
      }
      return if reply.ErrorReply? then ErrorRaised(reply.errorNo, reply.errorStatus) else OkReply(reply.value);
    }
  }
}
