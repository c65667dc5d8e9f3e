/** What a blocking client does over time: the bytes it writes and reads, and which request or handler is behind each.

    A call is a tree: while a request waits, responses are read one after the other; a message among them calls the
    handler, whose own requests are calls again. */
module Traffic {
  import opened Options
  import opened Protocol
  import opened Wire
  import opened Requests
  import opened Responses
  import opened Connections
  import opened Routing

  // ---------- On the connection ----------

  /** A request goes out; a response comes in; what came in is no response; the stream ends, with `left` unread. */
  datatype Act = Wrote(ref: nat, req: Request) | Read(resp: Response) | Broke(error: WireError) | Stopped(left: bytes)

  datatype Channel = Channel(refNo: nat, outstanding: Outstanding, unread: bytes, sent: bytes)

  /** The connection and what was answered so far. */
  datatype View = View(channel: Channel, answered: map<nat, Exchange>)

  /** What becomes of the connection; None when such an act is not possible. */
  function Acted(d: Dialect, v: Channel, act: Act): Option<Channel> {
    match act
    case Wrote(ref, req) =>
      if ref != v.refNo + 1 then None
      else Some(v.(refNo := ref, outstanding := v.outstanding[ref := req.callNo],
                   sent := v.sent + RequestLine(ref, req)))
    case Read(resp) =>
      var p := ParseResponse(d, v.outstanding, v.unread);
      if p.Ok? && Plain(p.value.0) == resp then Some(v.(outstanding := p.value.1, unread := p.rest)) else None
    case Broke(e) =>
      var p := ParseResponse(d, v.outstanding, v.unread);
      if p.Bad? && p.error == e then Some(v.(unread := p.rest)) else None
    case Stopped(left) =>
      if ParseResponse(d, v.outstanding, v.unread).More? && |left| <= |v.unread| then Some(v.(unread := left)) else None
  }

  /** These acts, in this order and no others, lead from one state of the connection to the other. */
  ghost predicate Lead(d: Dialect, v: Channel, acts: seq<Act>, w: Channel)
    decreases |acts|
  {
    if acts == [] then w == v
    else Acted(d, v, acts[0]).Some? && Lead(d, Acted(d, v, acts[0]).value, acts[1..], w)
  }

  lemma {:induction false} LeadTwice(d: Dialect, v: Channel, acts: seq<Act>, w: Channel, more: seq<Act>, x: Channel)
    requires Lead(d, v, acts, w) && Lead(d, w, more, x)
    ensures Lead(d, v, acts + more, x)
    decreases |acts|
  {
    if acts == [] {
      assert acts + more == more;
    } else {
      LeadTwice(d, Acted(d, v, acts[0]).value, acts[1..], w, more, x);
      assert (acts + more)[1..] == acts[1..] + more;
    }
  }

  // ---------- What the acts amount to ----------

  /** The requests that were written. */
  function Written(acts: seq<Act>): seq<Request>
    decreases |acts|
  {
    if acts == [] then [] else WrittenBy(acts[0]) + Written(acts[1..])
  }

  /** Their lines, numbered one after the other. */
  function Lines(refNo: nat, reqs: seq<Request>): bytes
    decreases |reqs|
  {
    if reqs == [] then [] else RequestLine(refNo + 1, reqs[0]) + Lines(refNo + 1, reqs[1..])
  }

  function WrittenBy(act: Act): seq<Request> {
    if act.Wrote? then [act.req] else []
  }

  lemma LinesCons(refNo: nat, req: Request, reqs: seq<Request>)
    ensures Lines(refNo, [req] + reqs) == RequestLine(refNo + 1, req) + Lines(refNo + 1, reqs)
  {
    assert ([req] + reqs)[1..] == reqs;
  }

  /** The line of the first request, and those of the others. */
  lemma SentFirst(sent: bytes, refNo: nat, act: Act, reqs: seq<Request>)
    ensures (if act.Wrote? then sent + RequestLine(refNo + 1, act.req) + Lines(refNo + 1, reqs)
             else sent + Lines(refNo, reqs))
         == sent + Lines(refNo, WrittenBy(act) + reqs)
  {
    if act.Wrote? {
      LinesCons(refNo, act.req, reqs);
      Regroup(sent, RequestLine(refNo + 1, act.req), Lines(refNo + 1, reqs));
    } else {
      assert WrittenBy(act) + reqs == reqs;
    }
  }

  lemma {:induction false} ActedSent(d: Dialect, v: Channel, act: Act, next: Channel, later: seq<Request>)
    requires Acted(d, v, act) == Some(next)
    ensures next.sent + Lines(next.refNo, later) == v.sent + Lines(v.refNo, WrittenBy(act) + later)
    ensures next.refNo + |later| == v.refNo + |WrittenBy(act) + later|
  {
    SentFirst(v.sent, v.refNo, act, later);
  }

  lemma LeadsOn(d: Dialect, v: Channel, acts: seq<Act>, w: Channel) returns (next: Channel)
    requires Lead(d, v, acts, w) && acts != []
    ensures Acted(d, v, acts[0]) == Some(next) && Lead(d, next, acts[1..], w)
  {
    next := Acted(d, v, acts[0]).value;
  }

  /** What is sent is exactly the lines of the requests, in order, under consecutive numbers. */
  lemma {:induction false} SentIsWritten(d: Dialect, v: Channel, acts: seq<Act>, w: Channel)
    requires Lead(d, v, acts, w)
    ensures w.sent == v.sent + Lines(v.refNo, Written(acts)) && w.refNo == v.refNo + |Written(acts)|
    decreases |acts|
  {
    if acts == [] {
      assert v.sent + [] == v.sent;
    } else {
      var next := LeadsOn(d, v, acts, w);
      SentIsWritten(d, next, acts[1..], w);
      ActedSent(d, v, acts[0], next, Written(acts[1..]));
    }
  }

  /** The responses that were read. */
  function Heard(acts: seq<Act>): seq<Response>
    decreases |acts|
  {
    if acts == [] then [] else (if acts[0].Read? then [acts[0].resp] else []) + Heard(acts[1..])
  }

  /** The table that all the requests that were written make. */
  function Called(acts: seq<Act>): Outstanding
    decreases |acts|
  {
    if acts == [] then map[]
    else if acts[0].Wrote? then map[acts[0].ref := acts[0].req.callNo] + Called(acts[1..])
    else Called(acts[1..])
  }

  lemma {:induction false} CalledAreNew(d: Dialect, v: Channel, acts: seq<Act>, w: Channel)
    requires Lead(d, v, acts, w)
    ensures forall r :: r in Called(acts) ==> v.refNo < r
    decreases |acts|
  {
    if acts != [] {
      CalledAreNew(d, Acted(d, v, acts[0]).value, acts[1..], w);
    }
  }

  /** The outcome of reading is the same with the requests that are written later in the table. */
  lemma ReadsAsWithAll(d: Dialect, v: Channel, resp: Response, next: Channel, later: Outstanding)
    requires Acted(d, v, Read(resp)) == Some(next)
    requires (forall r :: r in v.outstanding ==> r <= v.refNo) && (forall r :: r in later ==> v.refNo < r)
    ensures var p := ParseResponse(d, v.outstanding + later, v.unread);
            p.Ok? && Plain(p.value.0) == resp && p.value.1 == next.outstanding + later && p.rest == next.unread
    ensures next.refNo == v.refNo && forall r :: r in next.outstanding ==> r <= next.refNo
  {
    ResponseAnswers(d, v.outstanding, v.unread);
    ResponseGrows(d, v.outstanding, later, v.unread);
  }

  lemma WritesIntoAll(v: Channel, ref: nat, callNo: nat, later: Outstanding)
    ensures v.outstanding + (map[ref := callNo] + later) == v.outstanding[ref := callNo] + later
  {
  }

  ghost predicate WritesOrReads(acts: seq<Act>) {
    forall i :: 0 <= i < |acts| ==> acts[i].Wrote? || acts[i].Read?
  }

  lemma WritesOrReadsTail(acts: seq<Act>)
    requires WritesOrReads(acts) && acts != []
    ensures (acts[0].Wrote? || acts[0].Read?) && WritesOrReads(acts[1..])
  {
  }

  /** What is read over a whole call, handlers and their requests included, is what the stream holds, in order: the
      responses of its run, as if all the requests had been sent before. */
  lemma {:induction false} HeardIsRun(d: Dialect, v: Channel, acts: seq<Act>, w: Channel)
    requires Lead(d, v, acts, w) && WritesOrReads(acts) && forall r :: r in v.outstanding ==> r <= v.refNo
    ensures Heard(acts) + AllPlain(Run(d, w.outstanding, w.unread).responses) ==
            AllPlain(Run(d, v.outstanding + Called(acts), v.unread).responses)
    decreases |acts|
  {
    var later := AllPlain(Run(d, w.outstanding, w.unread).responses);
    if acts == [] {
      assert v.outstanding + Called(acts) == v.outstanding && [] + later == later;
    } else {
      WritesOrReadsTail(acts);
      var next, rest := Acted(d, v, acts[0]).value, acts[1..];
      if acts[0].Wrote? {
        HeardIsRun(d, next, rest, w);
        WritesIntoAll(v, acts[0].ref, acts[0].req.callNo, Called(rest));
        assert [] + Heard(rest) == Heard(rest);
      } else {
        CalledAreNew(d, next, rest, w);
        ReadsAsWithAll(d, v, acts[0].resp, next, Called(rest));
        HeardIsRun(d, next, rest, w);
        HeardFirst(d, v.outstanding + Called(rest), v.unread, Heard(rest), later);
      }
    }
  }

  lemma PlainFirst(resp: Response, rest: seq<Response>)
    ensures AllPlain([resp] + rest) == [Plain(resp)] + AllPlain(rest)
  {
  }

  lemma HeardFirst(d: Dialect, out: Outstanding, b: bytes, heard: seq<Response>, later: seq<Response>)
    requires ParseResponse(d, out, b).Ok?
    requires var p := ParseResponse(d, out, b); heard + later == AllPlain(Run(d, p.value.1, p.rest).responses)
    ensures var p := ParseResponse(d, out, b);
            [Plain(p.value.0)] + heard + later == AllPlain(Run(d, out, b).responses)
  {
    var p := ParseResponse(d, out, b);
    PlainFirst(p.value.0, Run(d, p.value.1, p.rest).responses);
    assert [Plain(p.value.0)] + heard + later == [Plain(p.value.0)] + (heard + later);
  }

  /** The outcome for the request that a response answers. */
  function OutcomeOf(resp: Response): Outcome
    requires !resp.Message?
  {
    if resp.Reply? then Answer(resp.value) else ServerError(resp.errorNo, resp.errorStatus)
  }

  /** What was read for request `ref`. */
  function AnswerIn(acts: seq<Act>, ref: nat): Option<Outcome>
    decreases |acts|
  {
    if acts == [] then None
    else
      var act := acts[|acts| - 1];
      if act.Read? && !act.resp.Message? && act.resp.refNo == ref then Some(OutcomeOf(act.resp))
      else AnswerIn(acts[..|acts| - 1], ref)
  }

  /** An answer is the value of a reply, or number and status of an error reply, that was read under that number. */
  lemma {:induction false} AnswerIsRead(acts: seq<Act>, ref: nat)
    ensures forall v :: AnswerIn(acts, ref) == Some(Answer(v)) ==>
              exists i :: 0 <= i < |acts| && acts[i].Read? && acts[i].resp == Reply(ref, v, acts[i].resp.payload)
    ensures forall no, status :: AnswerIn(acts, ref) == Some(ServerError(no, status)) ==>
              exists i :: 0 <= i < |acts| && acts[i].Read? &&
                          acts[i].resp == ErrorReply(ref, no, status, acts[i].resp.payload)
    ensures AnswerIn(acts, ref).Some? ==> AnswerIn(acts, ref).value.Answer? || AnswerIn(acts, ref).value.ServerError?
    ensures AnswerIn(acts, ref).None? ==>
              forall i :: 0 <= i < |acts| && acts[i].Read? ==> acts[i].resp.Message? || acts[i].resp.refNo != ref
    decreases |acts|
  {
    if acts != [] {
      var n := |acts| - 1;
      AnswerIsRead(acts[..n], ref);
      assert forall i :: 0 <= i < n ==> acts[..n][i] == acts[i];
      assert acts[n].Read? ==> acts[n].resp == acts[n].resp;
    }
  }

  lemma {:induction false} AnswerInConcat(a: seq<Act>, b: seq<Act>, ref: nat)
    ensures AnswerIn(a + b, ref) == if AnswerIn(b, ref).Some? then AnswerIn(b, ref) else AnswerIn(a, ref)
    decreases |b|
  {
    if b == [] {
      assert a + b == a;
    } else {
      var n := |b| - 1;
      AnswerInConcat(a, b[..n], ref);
      assert (a + b)[..|a| + n] == a + b[..n];
    }
  }

  function OutcomeAt(answered: map<nat, Exchange>, ref: nat): Option<Outcome> {
    if ref in answered then Some(answered[ref].outcome) else None
  }

  /** The answers are those there were before, and those that were read since. */
  ghost predicate RecordedAt(v: View, acts: seq<Act>, w: View, ref: nat) {
    OutcomeAt(w.answered, ref) ==
      if AnswerIn(acts, ref).Some? then AnswerIn(acts, ref) else OutcomeAt(v.answered, ref)
  }

  /** From one view to the other, these acts happened and no others. */
  ghost predicate Happened(d: Dialect, v: View, acts: seq<Act>, w: View) {
    Lead(d, v.channel, acts, w.channel) && forall ref: nat :: RecordedAt(v, acts, w, ref)
  }

  lemma HappenedTwice(d: Dialect, v: View, acts: seq<Act>, w: View, more: seq<Act>, x: View)
    requires Happened(d, v, acts, w) && Happened(d, w, more, x)
    ensures Happened(d, v, acts + more, x)
  {
    LeadTwice(d, v.channel, acts, w.channel, more, x.channel);
    forall ref: nat ensures RecordedAt(v, acts + more, x, ref) {
      assert RecordedAt(v, acts, w, ref) && RecordedAt(w, more, x, ref);
      AnswerInConcat(acts, more, ref);
    }
  }

  lemma NothingHappened(d: Dialect, v: View)
    ensures Happened(d, v, [], v)
  {
  }

  /** A request is written. */
  lemma WroteHappened(d: Dialect, v: View, ref: nat, req: Request, w: View)
    requires ref == v.channel.refNo + 1
    requires var c := v.channel;
             w == v.(channel := Channel(ref, c.outstanding[ref := req.callNo], c.unread,
                                        c.sent + RequestLine(ref, req)))
    ensures Happened(d, v, [Wrote(ref, req)], w)
  {
    OneHappened(d, v, Wrote(ref, req), w);
  }

  /** One act. */
  lemma OneHappened(d: Dialect, v: View, act: Act, w: View)
    requires Acted(d, v.channel, act) == Some(w.channel)
    requires forall ref: nat :: OutcomeAt(w.answered, ref) ==
               if act.Read? && !act.resp.Message? && act.resp.refNo == ref then Some(OutcomeOf(act.resp))
               else OutcomeAt(v.answered, ref)
    ensures Happened(d, v, [act], w)
  {
    assert [act][1..] == [];
    forall ref: nat ensures RecordedAt(v, [act], w, ref) {
      assert [act][..0] == [];
      assert AnswerIn([], ref) == None;
    }
  }

  // ---------- Calls ----------

  /** What a handler does next. */
  datatype Action = Finish | Raise(exception: nat) | Ask(req: Request)

  /** A handler decides by the message and by how its own requests ended so far. */
  type Handler = (nat, Value, seq<Outcome>) -> Action

  /** A request, what was read while it waited, and how it ended. */
  datatype Call = Call(ref: nat, req: Request, steps: seq<Step>, outcome: Outcome)

  /** One turn of the loop that waits: a reply to somebody; a message, with the requests of its handler and the
      exception that ended it, if any; a local error; the end of the stream. */
  datatype Step =
    | Replied(resp: Response)
    | Notified(msgNo: nat, msg: Value, calls: seq<Call>, raised: Option<nat>)
    | Faulty(error: WireError)
    | Closed(left: bytes)
  {
    /** What ends the request that waits. */
    function Failure(): Option<Outcome> {
      match this
      case Replied(_) => None
      case Notified(_, _, _, raised) => if raised.Some? then Some(HandlerRaised(raised.value)) else None
      case Faulty(e) => Some(LocalError(e))
      case Closed(_) => Some(Lost)
    }
  }

  function ActsOf(call: Call): seq<Act>
    decreases call, 1
  {
    [Wrote(call.ref, call.req)] + StepsActs(call.steps)
  }

  function StepsActs(steps: seq<Step>): seq<Act>
    decreases steps, 0
  {
    if steps == [] then []
    else
      var n := |steps| - 1;
      StepsActs(steps[..n]) + StepActs(steps[n])
  }

  function StepActs(step: Step): seq<Act>
    decreases step, 0
  {
    match step
    case Replied(resp) => [Read(resp)]
    case Notified(msgNo, msg, calls, _) => [Read(Message(msgNo, msg, []))] + CallsActs(calls)
    case Faulty(e) => [Broke(e)]
    case Closed(left) => [Stopped(left)]
  }

  function CallsActs(calls: seq<Call>): seq<Act>
    decreases calls, 2
  {
    if calls == [] then []
    else
      var n := |calls| - 1;
      CallsActs(calls[..n]) + ActsOf(calls[n])
  }

  function Outcomes(calls: seq<Call>): (r: seq<Outcome>)
    ensures |r| == |calls| && forall i :: 0 <= i < |calls| ==> r[i] == calls[i].outcome
  {
    seq(|calls|, i requires 0 <= i < |calls| => calls[i].outcome)
  }

  /** A request reads on until its own reply was read, by itself or by a handler it called, or a turn fails; it ends
      with the failure, or else with that reply.  Every handler it called ran to its end. */
  ghost predicate Plays(handler: Handler, call: Call)
    decreases call, 1
  {
    Waits(handler, call.ref, call.steps, call.outcome)
  }

  ghost predicate Waits(handler: Handler, ref: nat, steps: seq<Step>, o: Outcome)
    decreases steps, 0
  {
    && (forall i :: 0 <= i < |steps| ==> PlaysStep(handler, steps[i]) && AnswerIn(StepsActs(steps[..i]), ref).None?)
    && (forall i :: 0 <= i < |steps| - 1 ==> steps[i].Failure().None?)
    && Some(o) == if steps != [] && steps[|steps| - 1].Failure().Some? then steps[|steps| - 1].Failure()
                  else AnswerIn(StepsActs(steps), ref)
  }

  ghost predicate PlaysStep(handler: Handler, step: Step)
    decreases step, 0
  {
    match step
    case Replied(resp) => !resp.Message?
    case Notified(msgNo, msg, calls, raised) =>
      && Asks(handler, msgNo, msg, calls)
      && handler(msgNo, msg, Outcomes(calls)) == if raised.Some? then Raise(raised.value) else Finish
    case _ => true
  }

  /** The handler made these calls, one after the other, knowing how those before had ended. */
  ghost predicate Asks(handler: Handler, msgNo: nat, msg: Value, calls: seq<Call>)
    decreases calls, 2
  {
    forall i :: 0 <= i < |calls| ==>
      Plays(handler, calls[i]) && handler(msgNo, msg, Outcomes(calls[..i])) == Ask(calls[i].req)
  }

  /** So far, nothing was read for `ref` and no turn failed. */
  ghost predicate StillWaits(handler: Handler, ref: nat, steps: seq<Step>) {
    && (forall i :: 0 <= i < |steps| ==> PlaysStep(handler, steps[i]) && AnswerIn(StepsActs(steps[..i]), ref).None?)
    && (forall i :: 0 <= i < |steps| ==> steps[i].Failure().None?)
  }

  /** As long as a request has no answer, none was read for it. */
  lemma Unanswered(d: Dialect, v: View, acts: seq<Act>, w: View, ref: nat)
    requires Happened(d, v, acts, w) && ref !in w.answered
    ensures AnswerIn(acts, ref).None?
  {
    assert RecordedAt(v, acts, w, ref);
  }

  /** When it has one, that was read since. */
  lemma AnsweredSince(d: Dialect, v: View, handler: Handler, steps: seq<Step>, w: View, ref: nat, o: Outcome)
    requires Happened(d, v, StepsActs(steps), w) && StillWaits(handler, ref, steps)
    requires ref !in v.answered && OutcomeAt(w.answered, ref) == Some(o)
    ensures Waits(handler, ref, steps, o)
  {
    assert RecordedAt(v, StepsActs(steps), w, ref);
  }

  /** One turn more, in what happened and in how the request waits. */
  lemma {:induction false} TurnTaken(d: Dialect, v: View, handler: Handler, ref: nat, steps: seq<Step>, w: View,
                                     step: Step, x: View)
    requires Happened(d, v, StepsActs(steps), w) && Happened(d, w, StepActs(step), x)
    requires StillWaits(handler, ref, steps) && ref !in w.answered && PlaysStep(handler, step)
    ensures Happened(d, v, StepsActs(steps + [step]), x)
    ensures step.Failure().None? ==> StillWaits(handler, ref, steps + [step])
    ensures step.Failure().Some? ==> Waits(handler, ref, steps + [step], step.Failure().value)
  {
    var all := steps + [step];
    Unanswered(d, v, StepsActs(steps), w, ref);
    HappenedTwice(d, v, StepsActs(steps), w, StepActs(step), x);
    assert all[..|steps|] == steps;
    forall i | 0 <= i < |all|
      ensures PlaysStep(handler, all[i]) && AnswerIn(StepsActs(all[..i]), ref).None?
      ensures i < |steps| ==> all[i].Failure().None?
    {
      if i < |steps| {
        assert all[..i] == steps[..i] && all[i] == steps[i];
      }
    }
  }

  /** One request more of a handler. */
  lemma {:induction false} CallMade(d: Dialect, v: View, handler: Handler, msgNo: nat, msg: Value, calls: seq<Call>,
                                    w: View, call: Call, x: View)
    requires Happened(d, v, CallsActs(calls), w) && Happened(d, w, ActsOf(call), x)
    requires Asks(handler, msgNo, msg, calls) && Plays(handler, call)
    requires handler(msgNo, msg, Outcomes(calls)) == Ask(call.req)
    ensures Happened(d, v, CallsActs(calls + [call]), x) && Asks(handler, msgNo, msg, calls + [call])
    ensures Outcomes(calls + [call]) == Outcomes(calls) + [call.outcome]
  {
    var all := calls + [call];
    HappenedTwice(d, v, CallsActs(calls), w, ActsOf(call), x);
    assert all[..|calls|] == calls;
    forall i | 0 <= i < |all|
      ensures Plays(handler, all[i]) && handler(msgNo, msg, Outcomes(all[..i])) == Ask(all[i].req)
    {
      if i < |calls| {
        assert all[..i] == calls[..i] && all[i] == calls[i];
      }
    }
  }

  // ---------- A message calls its handler ----------

  lemma {:induction false} FirstStep(steps: seq<Step>)
    requires steps != []
    ensures StepActs(steps[0]) <= StepsActs(steps)
    ensures |steps| > 1 ==> StepActs(steps[0]) + StepActs(steps[1]) <= StepsActs(steps)
    decreases |steps|
  {
    var n := |steps| - 1;
    assert StepsActs(steps) == StepsActs(steps[..n]) + StepActs(steps[n]);
    if n > 0 {
      FirstStep(steps[..n]);
    }
    if n == 1 {
      assert StepsActs(steps[..1]) == StepsActs([]) + StepActs(steps[0]) by {
        assert steps[..1][..0] == [];
      }
    }
  }

  lemma {:induction false} FirstCall(calls: seq<Call>)
    requires calls != []
    ensures [Wrote(calls[0].ref, calls[0].req)] <= CallsActs(calls)
    decreases |calls|
  {
    var n := |calls| - 1;
    if n > 0 {
      FirstCall(calls[..n]);
    } else {
      assert calls[..0] == [];
      assert CallsActs(calls) == ActsOf(calls[0]);
    }
  }

  /** What opens a step is never a request. */
  lemma StepReads(step: Step)
    ensures StepActs(step) != [] && !StepActs(step)[0].Wrote?
    ensures StepActs(step)[0].Read? && StepActs(step)[0].resp.Message? && step.Notified? ==>
              step.msgNo == StepActs(step)[0].resp.msgNo && step.msg == StepActs(step)[0].resp.value
  {
  }

  /** How a handler begins. */
  lemma HandlerBegins(handler: Handler, step: Step)
    requires PlaysStep(handler, step) && step.Notified?
    ensures match handler(step.msgNo, step.msg, [])
            case Raise(e) => step.calls == [] && step.raised == Some(e)
            case Ask(req) => step.calls != [] && step.calls[0].req == req
            case Finish => step.calls == [] && step.raised == None
  {
    assert Outcomes([]) == [];
    assert step.calls[..0] == [];
  }

  /** The first turn, when it reads a message. */
  lemma {:induction false} FirstTurn(d: Dialect, steps: seq<Step>, v: Channel, w: Channel)
    requires steps != [] && Lead(d, v, StepsActs(steps), w) && (steps[0].Replied? ==> !steps[0].resp.Message?)
    requires var p := ParseResponse(d, v.outstanding, v.unread); p.Ok? && p.value.0.Message?
    ensures StepsActs(steps) != [] && steps[0].Notified?
    ensures var p := ParseResponse(d, v.outstanding, v.unread);
            && steps[0].msgNo == p.value.0.msgNo && steps[0].msg == p.value.0.value
            && Lead(d, v.(outstanding := p.value.1, unread := p.rest), StepsActs(steps)[1..], w)
  {
    FirstStep(steps);
    StepReads(steps[0]);
    var next := LeadsOn(d, v, StepsActs(steps), w);
  }

  /** What follows the message. */
  lemma AfterMessage(steps: seq<Step>)
    requires steps != [] && steps[0].Notified?
    ensures steps[0].calls != [] ==>
              |StepsActs(steps)| > 1 && StepsActs(steps)[1] == Wrote(steps[0].calls[0].ref, steps[0].calls[0].req)
    ensures steps[0].calls == [] && |StepsActs(steps)| > 1 ==> |steps| > 1 && !StepsActs(steps)[1].Wrote?
  {
    FirstStep(steps);
    if steps[0].calls != [] {
      FirstCall(steps[0].calls);
    } else if |steps| > 1 {
      StepReads(steps[1]);
    } else {
      assert steps[..0] == [];
      assert StepsActs(steps) == [] + StepActs(steps[0]);
    }
  }

  lemma SomeStep(handler: Handler, call: Call)
    requires Plays(handler, call)
    ensures call.steps != [] && PlaysStep(handler, call.steps[0])
    ensures call.steps[0].Replied? ==> !call.steps[0].resp.Message?
    ensures call.steps[0].Failure().Some? ==> |call.steps| == 1 && Some(call.outcome) == call.steps[0].Failure()
  {
    assert call.steps == [] ==> AnswerIn(StepsActs(call.steps), call.ref) == None;
  }

  /** When a message is the first thing to be read, its handler decides at once: an exception of it ends the request, a
      request of it goes out next, and when it finishes, the waiting request reads on. */
  lemma MessageCallsHandler(d: Dialect, handler: Handler, v: Channel, call: Call, w: Channel)
    requires Plays(handler, call) && Lead(d, v, ActsOf(call), w)
    requires var p := ParseResponse(d, v.outstanding[call.ref := call.req.callNo], v.unread);
             p.Ok? && p.value.0.Message?
    ensures |ActsOf(call)| > 1
    ensures var m := ParseResponse(d, v.outstanding[call.ref := call.req.callNo], v.unread).value.0;
            match handler(m.msgNo, m.value, [])
            case Raise(e) => call.outcome == HandlerRaised(e)
            case Ask(req) => |ActsOf(call)| > 2 && ActsOf(call)[2] == Wrote(call.ref + 1, req)
            case Finish => |ActsOf(call)| > 2 ==> !ActsOf(call)[2].Wrote?
  {
    var acts, steps := ActsOf(call), call.steps;
    var next := LeadsOn(d, v, acts, w);
    assert acts[1..] == StepsActs(steps);
    SomeStep(handler, call);
    FirstTurn(d, steps, next, w);
    HandlerBegins(handler, steps[0]);
    AfterMessage(steps);
    var p := ParseResponse(d, next.outstanding, next.unread);
    var rest := StepsActs(steps)[1..];
    if steps[0].calls != [] {
      var asked := LeadsOn(d, next.(outstanding := p.value.1, unread := p.rest), rest, w);
      assert rest[0] == acts[2];
    }
  }
}
