/** The routing of replies to requests in the blocking client, as values: the invariant that every step keeps. */
module Routing {
  import opened Protocol
  import opened Wire
  import opened Responses

  /** How a request ends: with its reply, with the error the server sent for it, or because something else was raised
      while it waited: an exception of the handler, a local error of the connection, the end of the stream. */
  datatype Outcome =
    | Answer(value: Value)
    | ServerError(errorNo: nat, errorStatus: nat)
    | HandlerRaised(exception: nat)
    | LocalError(error: WireError)
    | Lost

  /** The call a reply was parsed for, and the reply. */
  datatype Exchange = Exchange(callNo: nat, outcome: Outcome)

  /** The tables of the client and of its connection, and the bytes that were sent.  `calls`, `answered` and `taken`
      record every request ever sent, every reply ever read, and the requests whose reply was returned. */
  datatype State = State(
    refNo: nat,
    outstanding: Outstanding,
    okQueue: map<nat, Value>,
    errorQueue: map<nat, (nat, nat)>,
    calls: map<nat, nat>,
    answered: map<nat, Exchange>,
    taken: set<nat>,
    sent: bytes)
  {
    /** Request `callNo` goes out as `line`. */
    function Sent(callNo: nat, line: bytes): State {
      var ref := refNo + 1;
      this.(refNo := ref, outstanding := outstanding[ref := callNo], calls := calls[ref := callNo], sent := sent + line)
    }

    function GotReply(ref: nat, v: Value): State
      requires ref in calls
    {
      this.(outstanding := outstanding - {ref}, okQueue := okQueue[ref := v],
            answered := answered[ref := Exchange(calls[ref], Answer(v))])
    }

    function GotError(ref: nat, no: nat, status: nat): State
      requires ref in calls
    {
      this.(outstanding := outstanding - {ref}, errorQueue := errorQueue[ref := (no, status)],
            answered := answered[ref := Exchange(calls[ref], ServerError(no, status))])
    }

    /** The reply moves from outstanding to one of the queues. */
    function Got(resp: Response): State
      requires !resp.Message? && resp.refNo in calls
    {
      if resp.Reply? then GotReply(resp.refNo, resp.value) else GotError(resp.refNo, resp.errorNo, resp.errorStatus)
    }

    function Took(ref: nat): State {
      this.(okQueue := okQueue - {ref}, errorQueue := errorQueue - {ref}, taken := taken + {ref})
    }
  }

  /** An exchange for call `callNo`: a value of its reply type, or an error of the dialect. */
  ghost predicate Typed(d: Dialect, x: Exchange, callNo: nat) {
    && x.callNo == callNo
    && match x.outcome
       case Answer(v) => callNo in d.replies && HasType(v, d.replies[callNo])
       case ServerError(errorNo, _) => errorNo in d.errors
       case _ => false
  }

  /** Number k, once issued, is in exactly one place: outstanding, in one of the two queues, or taken by its
      request.  The queues hold what was read for k, at the type of the call sent under k. */
  ghost predicate InPlace(d: Dialect, s: State, k: nat) {
    && (k in s.calls <==> 1 <= k <= s.refNo)
    && (k in s.calls <==> k in s.outstanding || k in s.answered)
    && (k in s.answered <==> k in s.okQueue || k in s.errorQueue || k in s.taken)
    && !(k in s.outstanding && k in s.answered)
    && !(k in s.okQueue && k in s.errorQueue)
    && !(k in s.okQueue && k in s.taken) && !(k in s.errorQueue && k in s.taken)
    && (k in s.outstanding ==> s.outstanding[k] == s.calls[k])
    && (k in s.okQueue ==> s.answered[k].outcome == Answer(s.okQueue[k]))
    && (k in s.errorQueue ==> s.answered[k].outcome == ServerError(s.errorQueue[k].0, s.errorQueue[k].1))
    && (k in s.answered ==> Typed(d, s.answered[k], s.calls[k]))
  }

  ghost predicate Consistent(d: Dialect, s: State) {
    forall k: nat :: InPlace(d, s, k)
  }

  /** What was sent or read under k before s is the same in t, and unless k is one of `mine` its reply was not taken
      in between. */
  ghost predicate Kept(s: State, t: State, mine: set<nat>, k: nat) {
    && (k in s.calls ==> k in t.calls && t.calls[k] == s.calls[k])
    && (k in s.answered ==> k in t.answered && t.answered[k] == s.answered[k])
    && (k in s.taken ==> k in t.taken)
    && (k in t.taken && k <= s.refNo && k !in mine ==> k in s.taken)
  }

  ghost predicate Advanced(s: State, t: State, mine: set<nat>) {
    s.refNo <= t.refNo && s.sent <= t.sent && forall k: nat :: Kept(s, t, mine, k)
  }

  lemma AdvancedTwice(s: State, t: State, u: State, mine: set<nat>, more: set<nat>)
    requires Advanced(s, t, mine) && Advanced(t, u, more) && mine <= more
    ensures Advanced(s, u, more)
  {
    forall k: nat ensures Kept(s, u, more, k) {
      assert Kept(s, t, mine, k) && Kept(t, u, more, k);
    }
  }

  /** Nobody else takes the reply to `ref`. */
  lemma StillMine(s: State, t: State, u: State, ref: nat)
    requires Advanced(s, t, {}) && Advanced(t, u, {}) && ref !in t.taken && ref <= t.refNo
    ensures Advanced(s, u, {}) && ref !in u.taken
    ensures ref in s.answered ==> ref in u.answered
    ensures ref in s.calls ==> ref in u.calls && u.calls[ref] == s.calls[ref]
  {
    AdvancedTwice(s, t, u, {}, {});
    assert Kept(t, u, {}, ref) && Kept(s, u, {}, ref);
  }

  /** Taking the reply to a request sent in between robs nobody who was there before. */
  lemma SentThenMine(s: State, t: State, u: State, ref: nat)
    requires Advanced(s, t, {}) && Advanced(t, u, {ref}) && s.refNo < ref
    ensures Advanced(s, u, {})
  {
    forall k: nat ensures Kept(s, u, {}, k) {
      assert Kept(s, t, {}, k) && Kept(t, u, {ref}, k);
    }
  }

  /** How a request that was sent under `ref` stands when it ends with `o`: a reply that is returned, or a server error
      that is raised, is the one that was read under this number, for this very call. */
  ghost predicate Ends(s: State, ref: nat, callNo: nat, o: Outcome) {
    && ref in s.calls && s.calls[ref] == callNo
    && if o.Answer? || o.ServerError?
       then ref in s.taken && ref in s.answered && s.answered[ref] == Exchange(callNo, o)
       else ref !in s.taken
  }

  lemma RequestEnds(d: Dialect, s: State, t: State, callNo: nat, line: bytes, o: Outcome)
    requires Consistent(d, s) && Advanced(s.Sent(callNo, line), t, {s.refNo + 1})
    requires s.refNo + 1 in t.calls && Ends(t, s.refNo + 1, t.calls[s.refNo + 1], o)
    ensures Advanced(s, t, {}) && Ends(t, s.refNo + 1, callNo, o) && s.refNo < t.refNo && s.sent + line <= t.sent
  {
    var ref := s.refNo + 1;
    SentKeeps(d, s, callNo, line);
    SentThenMine(s, s.Sent(callNo, line), t, ref);
    assert Kept(s.Sent(callNo, line), t, {ref}, ref);
  }

  /** A new request gets a number that was never used; nobody's reply moves. */
  lemma SentKeeps(d: Dialect, s: State, callNo: nat, line: bytes)
    requires Consistent(d, s)
    ensures Consistent(d, s.Sent(callNo, line)) && Advanced(s, s.Sent(callNo, line), {})
    ensures s.refNo + 1 !in s.calls && s.refNo + 1 !in s.taken && s.refNo + 1 !in s.answered
  {
    var t := s.Sent(callNo, line);
    assert InPlace(d, s, s.refNo + 1);
    forall k: nat ensures InPlace(d, t, k) && Kept(s, t, {}, k) {
      assert InPlace(d, s, k);
    }
  }

  /** A response moves the request it answers, and no other, from outstanding to one of the queues. */
  lemma ResponseKeeps(d: Dialect, s: State, resp: Response, out': Outstanding)
    requires Consistent(d, s) && Answers(d, s.outstanding, resp, out') && !resp.Message?
    ensures resp.refNo in s.calls
    ensures Consistent(d, s.Got(resp)) && Advanced(s, s.Got(resp), {}) && s.Got(resp).outstanding == out'
  {
    var ref := resp.refNo;
    assert InPlace(d, s, ref);
    var t := s.Got(resp);
    forall k: nat ensures InPlace(d, t, k) && Kept(s, t, {}, k) {
      assert InPlace(d, s, k);
    }
  }

  /** What is read from the connection keeps the invariant, whatever it is. */
  lemma ReadingKeeps(d: Dialect, s: State, b: bytes)
    requires Consistent(d, s)
    ensures var p := ParseResponse(d, s.outstanding, b);
            p.Ok? ==>
              if p.value.0.Message? then p.value.1 == s.outstanding
              else && p.value.0.refNo in s.calls && s.Got(p.value.0).outstanding == p.value.1
                   && Consistent(d, s.Got(p.value.0)) && Advanced(s, s.Got(p.value.0), {})
  {
    ResponseAnswers(d, s.outstanding, b);
    var p := ParseResponse(d, s.outstanding, b);
    if p.Ok? && !p.value.0.Message? {
      ResponseKeeps(d, s, p.value.0, p.value.1);
    }
  }

  /** Taking a queued reply yields what was read under that number, and touches no other. */
  lemma TookKeeps(d: Dialect, s: State, ref: nat)
    requires Consistent(d, s) && (ref in s.okQueue || ref in s.errorQueue)
    ensures Consistent(d, s.Took(ref)) && Advanced(s, s.Took(ref), {ref})
    ensures ref in s.calls && ref in s.answered
    ensures s.answered[ref] ==
            Exchange(s.calls[ref], if ref in s.okQueue then Answer(s.okQueue[ref])
                                   else ServerError(s.errorQueue[ref].0, s.errorQueue[ref].1))
    ensures !(ref in s.okQueue && ref in s.errorQueue)
  {
    var t := s.Took(ref);
    assert InPlace(d, s, ref);
    forall k: nat ensures InPlace(d, t, k) && Kept(s, t, {ref}, k) {
      assert InPlace(d, s, k);
    }
  }
}

/** The blocking client: requests wait for their own reply while replies to other requests, and asynchronous
    messages whose handlers send requests of their own, come in between. */
module SyncClient {
  import opened Options
  import opened Wire
  import opened Requests
  import opened Responses
  import opened Reader
  import opened Connections
  import opened Routing
  import opened Traffic

  /** A handler that ends: it does not go on sending for ever when every request of it is lost.  `patience` bounds how
      often it still does. */
  ghost predicate Patient(handler: Handler, patience: (nat, Value, seq<Outcome>) -> nat) {
    forall msgNo: nat, msg: Value, outcomes: seq<Outcome> :: handler(msgNo, msg, outcomes).Ask? ==>
      patience(msgNo, msg, outcomes + [Lost]) < patience(msgNo, msg, outcomes)
  }

  class Client {
    const conn: Connection
    const handler: Handler
    ghost const patience: (nat, Value, seq<Outcome>) -> nat
    var okQueue: map<nat, Value>
    var errorQueue: map<nat, (nat, nat)>
    ghost var calls: map<nat, nat>
    ghost var answered: map<nat, Exchange>
    ghost var taken: set<nat>

    constructor (conn: Connection, handler: Handler, ghost patience: (nat, Value, seq<Outcome>) -> nat)
      requires conn.Valid() && conn.refNo == 0 && conn.outstanding == map[] && Patient(handler, patience)
      ensures Valid() && this.conn == conn && this.handler == handler
      ensures Now() == State(0, map[], map[], map[], map[], map[], {}, conn.buffer.socket.sent)
    {
      this.conn, this.handler, this.patience := conn, handler, patience;
      okQueue, errorQueue := map[], map[];
      calls, answered, taken := map[], map[], {};
    }

    ghost function Repr(): set<object> {
      {this} + conn.Repr()
    }

    ghost function Now(): State
      reads this, conn, conn.buffer.socket
    {
      State(conn.refNo, conn.Calls(), okQueue, errorQueue, calls, answered, taken, conn.buffer.socket.sent)
    }

    ghost predicate Valid()
      reads Repr()
    {
      conn.Valid() && Consistent(conn.dialect, Now()) && Patient(handler, patience)
    }

    ghost function Seen(): View
      requires Valid()
      reads Repr()
    {
      View(Channel(conn.refNo, conn.Calls(), conn.Stream(), conn.buffer.socket.sent), answered)
    }

    /** request: what is returned, or raised as a server error, was sent for this very request, and parsed for its
        call.  No other request is robbed of its reply.  What was written and read, handlers and their requests
        included, is exactly what `call` tells. */
    method Request(req: Request) returns (o: Outcome, ghost call: Call)
      requires Valid()
      modifies Repr()
      ensures Valid() && Advanced(old(Now()), Now(), {})
      ensures old(conn.refNo) < conn.refNo && Ends(Now(), old(conn.refNo) + 1, req.callNo, o)
      ensures old(Now()).sent + RequestLine(old(conn.refNo) + 1, req) <= Now().sent
      ensures call == Call(old(conn.refNo) + 1, req, call.steps, o) && Plays(handler, call)
      ensures Happened(conn.dialect, old(Seen()), ActsOf(call), Seen())
      ensures |conn.Stream()| <= |old(conn.Stream())|
      ensures !o.Lost? ==> |conn.Stream()| < |old(conn.Stream())|
      decreases |conn.Stream()|, 3
    {
      ghost var before, seen := Now(), Seen();
      var ref := conn.SendRequest(req);
      calls := calls[ref := req.callNo];
      ghost var line := RequestLine(ref, req);
      assert Now() == before.Sent(req.callNo, line);
      SentKeeps(conn.dialect, before, req.callNo, line);
      ghost var sent := Seen();
      WroteHappened(conn.dialect, seen, ref, req, sent);
      ghost var steps;
      o, steps := WaitAndDequeue(ref);
      call := Call(ref, req, steps, o);
      HappenedTwice(conn.dialect, seen, [Wrote(ref, req)], sent, StepsActs(steps), Seen());
      RequestEnds(conn.dialect, before, Now(), req.callNo, line, o);
    }

    method WaitAndDequeue(ref: nat) returns (o: Outcome, ghost steps: seq<Step>)
      requires Valid() && 1 <= ref <= conn.refNo && ref !in taken
      modifies Repr()
      ensures Valid() && Advanced(old(Now()), Now(), {ref})
      ensures ref in calls && Ends(Now(), ref, calls[ref], o)
      ensures Happened(conn.dialect, old(Seen()), StepsActs(steps), Seen())
      ensures if ref in old(answered) then steps == [] else Waits(handler, ref, steps, o)
      ensures |conn.Stream()| <= |old(conn.Stream())|
      ensures !o.Lost? && ref in old(conn.outstanding) ==> |conn.Stream()| < |old(conn.Stream())|
      decreases |conn.Stream()|, 2
    {
      ghost var start, seen := Now(), Seen();
      steps := [];
      NothingHappened(conn.dialect, seen);
      assert InPlace(conn.dialect, start, ref);
      while ref !in okQueue && ref !in errorQueue
        invariant Valid() && Advanced(start, Now(), {}) && ref !in taken
        invariant |conn.Stream()| <= |old(conn.Stream())|
        invariant |conn.Stream()| == |old(conn.Stream())| ==> Now() == start
        invariant Happened(conn.dialect, seen, StepsActs(steps), Seen())
        invariant ref in start.answered ==> steps == [] && Now() == start
        invariant StillWaits(handler, ref, steps)
        decreases |conn.Stream()|
      {
        ghost var before, was := Now(), Seen();
        assert InPlace(conn.dialect, before, ref);
        ghost var step;
        var failure;
        failure, step := ReadResponse();
        StillMine(start, before, Now(), ref);
        TurnTaken(conn.dialect, seen, handler, ref, steps, was, step, Seen());
        steps := steps + [step];
        if failure.Some? {
          AdvancedTwice(start, Now(), Now(), {}, {ref});
          return failure.value, steps;
        }
      }
      ghost var before, was := Now(), Seen();
      assert InPlace(conn.dialect, before, ref);
      o := Dequeue(ref);
      AdvancedTwice(start, before, Now(), {}, {ref});
      if ref !in start.answered {
        AnsweredSince(conn.dialect, seen, handler, steps, was, ref, o);
      }
    }

    /** The end of _wait_and_dequeue: the reply leaves its queue; the last branch is never reached. */
    method Dequeue(ref: nat) returns (o: Outcome)
      requires Valid() && (ref in okQueue || ref in errorQueue)
      modifies this`okQueue, this`errorQueue, this`taken
      ensures Valid() && Now() == old(Now()).Took(ref) && Advanced(old(Now()), Now(), {ref})
      ensures ref in calls && Ends(Now(), ref, calls[ref], o) && (o.Answer? || o.ServerError?)
    {
      TookKeeps(conn.dialect, Now(), ref);
      if ref in okQueue {
        o := Answer(okQueue[ref]);
        okQueue := okQueue - {ref};
      } else if ref in errorQueue {
        o := ServerError(errorQueue[ref].0, errorQueue[ref].1);
        errorQueue := errorQueue - {ref};
      } else {
        assert false;
      }
      taken := taken + {ref};
      assert Now() == old(Now()).Took(ref);
    }

    /** _read_response: one response; None unless an exception ended it. */
    method ReadResponse() returns (failure: Option<Outcome>, ghost step: Step)
      requires Valid()
      modifies Repr()
      ensures Valid() && Advanced(old(Now()), Now(), {})
      ensures failure.Some? ==> !failure.value.Answer? && !failure.value.ServerError?
      ensures failure == step.Failure() && PlaysStep(handler, step)
      ensures Happened(conn.dialect, old(Seen()), StepActs(step), Seen())
      ensures |conn.Stream()| <= |old(conn.Stream())|
      ensures failure != Some(Lost) ==> |conn.Stream()| < |old(conn.Stream())|
      ensures match ParseResponse(conn.dialect, old(conn.Calls()), old(conn.Stream()))
              case Ok((resp, _), rest) =>
                if resp.Message? then step.Notified? && step.msgNo == resp.msgNo && step.msg == resp.value
                else
                (failure == None && conn.Stream() == rest && resp.refNo in old(calls) && Now() == old(Now()).Got(resp))
              case Bad(e, _) => failure == Some(LocalError(e)) && Now() == old(Now())
              case More => failure == Some(Lost) && Now() == old(Now())
      decreases |conn.Stream()|, 1
    {
      ghost var seen := Seen();
      var r;
      ghost var act;
      r, act := ReadAndQueue();
      match r {
        case Starved =>
          return Some(Lost), Closed(conn.Stream());
        case Raised(e) =>
          return Some(LocalError(e)), Faulty(e);
        case Done(Message(msgNo, msg, _)) =>
          ghost var was := Seen();
          var raised;
          ghost var made;
          raised, made := HandleAsyncMessage(msgNo, msg);
          HappenedTwice(conn.dialect, seen, [act], was, CallsActs(made), Seen());
          failure := if raised.Some? then Some(HandlerRaised(raised.value)) else None;
          step := Notified(msgNo, msg, made, raised);
        case Done(_) =>
          return None, Replied(r.value);
      }
    }

    /** Everything but the handling of a message. */
    method ReadAndQueue() returns (r: Result<Response>, ghost act: Act)
      requires Valid()
      modifies conn, conn.buffer, conn.buffer.socket, this`okQueue, this`errorQueue, this`answered
      ensures Valid() && Advanced(old(Now()), Now(), {})
      ensures |conn.Stream()| <= |old(conn.Stream())| && (!r.Starved? ==> |conn.Stream()| < |old(conn.Stream())|)
      ensures Happened(conn.dialect, old(Seen()), [act], Seen())
      ensures match ParseResponse(conn.dialect, old(conn.Calls()), old(conn.Stream()))
              case Ok((resp, _), rest) =>
                && r == Done(Plain(resp)) && conn.Stream() == rest && act == Read(Plain(resp))
                && if resp.Message? then Now() == old(Now())
                   else resp.refNo in old(calls) && Now() == old(Now()).Got(resp)
              case Bad(e, _) => r == Raised(e) && Now() == old(Now()) && act == Broke(e)
              case More => r == Starved && Now() == old(Now()) && act == Stopped(conn.Stream())
    {
      ghost var seen := Seen();
      ReadingKeeps(conn.dialect, Now(), conn.Stream());
      r := conn.ReadResponse();
      act := if r.Done? then Read(r.value) else if r.Raised? then Broke(r.error) else Stopped(conn.Stream());
      if r.Done? && !r.value.Message? {
        Enqueue(r.value);
      }
      OneHappened(conn.dialect, seen, act, Seen());
    }

    /** The branches of _read_response that queue an error or a reply. */
    method Enqueue(resp: Response)
      requires !resp.Message? && resp.refNo in calls
      modifies this`okQueue, this`errorQueue, this`answered
      ensures Now() == old(Now()).Got(resp).(outstanding := conn.Calls())
    {
      var ref := resp.refNo;
      match resp {
        case ErrorReply(_, no, status, _) =>
          errorQueue := errorQueue[ref := (no, status)];
          answered := answered[ref := Exchange(calls[ref], ServerError(no, status))];
        case Reply(_, value, _) =>
          okQueue := okQueue[ref := value];
          answered := answered[ref := Exchange(calls[ref], Answer(value))];
      }
    }

    /** The handler runs to its end, one request after the other, also when the stream has ended: it asks for `made`,
        each knowing how those before ended, and then finishes or raises an exception. */
    method HandleAsyncMessage(msgNo: nat, msg: Value) returns (raised: Option<nat>, ghost made: seq<Call>)
      requires Valid()
      modifies Repr()
      ensures Valid() && Advanced(old(Now()), Now(), {})
      ensures forall i :: 0 <= i < |made| ==>
                Plays(handler, made[i]) && handler(msgNo, msg, Outcomes(made[..i])) == Ask(made[i].req)
      ensures match handler(msgNo, msg, Outcomes(made))
              case Finish => raised == None
              case Raise(e) => raised == Some(e)
              case Ask(_) => false
      ensures Happened(conn.dialect, old(Seen()), CallsActs(made), Seen())
      ensures |conn.Stream()| <= |old(conn.Stream())|
      decreases |conn.Stream()|, 4
    {
      ghost var before, seen := Now(), Seen();
      var outcomes: seq<Outcome> := [];
      made := [];
      NothingHappened(conn.dialect, seen);
      while true
        invariant Valid() && Advanced(before, Now(), {})
        invariant |conn.Stream()| <= |old(conn.Stream())|
        invariant outcomes == Outcomes(made) && Asks(handler, msgNo, msg, made)
        invariant Happened(conn.dialect, seen, CallsActs(made), Seen())
        decreases |conn.Stream()|, patience(msgNo, msg, outcomes)
      {
        match handler(msgNo, msg, outcomes) {
          case Finish => return None, made;
          case Raise(e) => return Some(e), made;
          case Ask(req) =>
            ghost var asking, was := Now(), Seen();
            var o;
            ghost var call;
            o, call := Request(req);
            AdvancedTwice(before, asking, Now(), {}, {});
            CallMade(conn.dialect, seen, handler, msgNo, msg, made, was, call, Seen());
            outcomes := outcomes + [o];
            made := made + [call];
        }
      }
    }
  }
}
