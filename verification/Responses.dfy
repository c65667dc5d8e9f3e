/** Responses of the server: replies, error replies and asynchronous messages, and whole streams of them.

    `ParseResponse` is the one parser that both connections are meant to run; `Run` applies it until the bytes run
    out or a local error is raised. */
module Responses {
  import opened Protocol
  import opened Options
  import opened Wire
  import opened Printer
  import opened ServerForm

  /** response_dict, async_dict and error_dict. */
  datatype Dialect = Dialect(replies: map<nat, WireType>, messages: map<nat, WireType>, errors: set<nat>)

  /** `payload` holds the bytes that were consumed behind the reference number, or behind the colon of a message. */
  datatype Response =
    | Reply(refNo: nat, value: Value, payload: bytes)
    | ErrorReply(refNo: nat, errorNo: nat, errorStatus: nat, payload: bytes)
    | Message(msgNo: nat, value: Value, payload: bytes)

  /** The table from reference numbers to call numbers. */
  type Outstanding = map<nat, nat>

  /** The bytes of `b` in front of its suffix `r`. */
  function Taken(b: bytes, r: bytes): bytes
    requires |r| <= |b|
  {
    b[..|b| - |r|]
  }

  /** Two numbers: an error number and its status, or the header of a message. */
  function NatPair(b: bytes): (p: Parsed<(nat, nat)>)
    ensures !p.Bad?
    ensures p.Ok? ==> |p.rest| <= |b|
  {
    var (m, r) :- Nat(b);
    var (n, r') :- Nat(r);
    Ok((m, n), r')
  }

  function ParseOkReply(d: Dialect, out: Outstanding, b: bytes): (p: Parsed<(Response, Outstanding)>)
    ensures !p.More? ==> |p.rest| <= |b|
  {
    var (refNo, r) :- Nat(b);
    if refNo !in out then Bad(BadRequestId(refNo), r)
    else if out[refNo] !in d.replies then Bad(UnknownCall(out[refNo]), r)
    else
      var (v, r') :- Parse(d.replies[out[refNo]], r);
      Ok((Reply(refNo, v, Taken(r, r')), out - {refNo}), r')
  }

  function ParseErrorReply(d: Dialect, out: Outstanding, b: bytes): (p: Parsed<(Response, Outstanding)>)
    ensures !p.More? ==> |p.rest| <= |b|
  {
    var (refNo, r) :- Nat(b);
    if refNo !in out then Bad(BadRequestId(refNo), r)
    else
      var (code, r') :- NatPair(r);
      if code.0 !in d.errors then Bad(UnknownErrorNumber(code.0), r')
      else Ok((ErrorReply(refNo, code.0, code.1, Taken(r, r')), out - {refNo}), r')
  }

  function ParseMessage(d: Dialect, out: Outstanding, b: bytes): (p: Parsed<(Response, Outstanding)>)
    ensures !p.More? ==> |p.rest| <= |b|
  {
    var (header, r) :- NatPair(b);
    var msgNo := header.1;
    if msgNo !in d.messages then Bad(UnimplementedAsync(msgNo), r)
    else
      var (v, r') :- Parse(d.messages[msgNo], r);
      Ok((Message(msgNo, v, Taken(b, r')), out), r')
  }

  function ParseResponse(d: Dialect, out: Outstanding, b: bytes): (p: Parsed<(Response, Outstanding)>)
    ensures !p.More? ==> |p.rest| < |b|
  {
    var (ch, r) :- FirstNonSpace(b);
    if ch == EQUALS then ParseOkReply(d, out, r)
    else if ch == PERCENT then ParseErrorReply(d, out, r)
    else if ch == COLON then ParseMessage(d, out, r)
    else Bad(ProtocolError, r)
  }

  // ---------- Stability ----------

  lemma TakenStable(b: bytes, r: bytes, s: bytes)
    requires |r| <= |b|
    ensures Taken(b + s, r + s) == Taken(b, r)
  {
  }

  lemma NatPairStable(b: bytes, s: bytes)
    ensures StableUnder(NatPair(b), NatPair(b + s), s)
  {
    NatStable(b, s);
    var p := Nat(b);
    if p.Ok? {
      NatStable(p.rest, s);
    }
  }

  lemma ParseOkReplyStable(d: Dialect, out: Outstanding, b: bytes, s: bytes)
    ensures StableUnder(ParseOkReply(d, out, b), ParseOkReply(d, out, b + s), s)
  {
    NatStable(b, s);
    var p := Nat(b);
    if p.Ok? && p.value in out && out[p.value] in d.replies {
      var t := d.replies[out[p.value]];
      ParseStable(t, p.rest, s);
      var q := Parse(t, p.rest);
      if q.Ok? {
        TakenStable(p.rest, q.rest, s);
      }
    }
  }

  lemma ParseErrorReplyStable(d: Dialect, out: Outstanding, b: bytes, s: bytes)
    ensures StableUnder(ParseErrorReply(d, out, b), ParseErrorReply(d, out, b + s), s)
  {
    NatStable(b, s);
    var p := Nat(b);
    if p.Ok? && p.value in out {
      NatPairStable(p.rest, s);
      var q := NatPair(p.rest);
      if q.Ok? {
        TakenStable(p.rest, q.rest, s);
      }
    }
  }

  lemma ParseMessageStable(d: Dialect, out: Outstanding, b: bytes, s: bytes)
    ensures StableUnder(ParseMessage(d, out, b), ParseMessage(d, out, b + s), s)
  {
    NatPairStable(b, s);
    var p := NatPair(b);
    if p.Ok? && p.value.1 in d.messages {
      ParseStable(d.messages[p.value.1], p.rest, s);
      var q := Parse(d.messages[p.value.1], p.rest);
      if q.Ok? {
        TakenStable(b, q.rest, s);
      }
    }
  }

  /** A response, or a local error, that the bytes already determine is not changed by bytes that arrive later. */
  lemma ParseResponseStable(d: Dialect, out: Outstanding, b: bytes, s: bytes)
    ensures StableUnder(ParseResponse(d, out, b), ParseResponse(d, out, b + s), s)
  {
    FirstNonSpaceStable(b, s);
    var p := FirstNonSpace(b);
    if p.Ok? {
      ParseOkReplyStable(d, out, p.rest, s);
      ParseErrorReplyStable(d, out, p.rest, s);
      ParseMessageStable(d, out, p.rest, s);
    }
  }

  lemma NatPairSuffix(b: bytes)
    ensures NatPair(b).LeavesSuffixOf(b)
  {
    NatAndNextSuffix(b);
    var p := Nat(b);
    if p.Ok? {
      NatAndNextSuffix(p.rest);
      SuffixThen(b, p, Nat(p.rest));
    }
  }

  lemma ParseOkReplySuffix(d: Dialect, out: Outstanding, b: bytes)
    ensures ParseOkReply(d, out, b).LeavesSuffixOf(b)
  {
    NatAndNextSuffix(b);
    var p := Nat(b);
    if p.Ok? && p.value in out && out[p.value] in d.replies {
      ParseSuffix(d.replies[out[p.value]], p.rest);
      SuffixThen(b, p, Parse(d.replies[out[p.value]], p.rest));
    }
  }

  lemma ParseErrorReplySuffix(d: Dialect, out: Outstanding, b: bytes)
    ensures ParseErrorReply(d, out, b).LeavesSuffixOf(b)
  {
    NatAndNextSuffix(b);
    var p := Nat(b);
    if p.Ok? {
      NatPairSuffix(p.rest);
      SuffixThen(b, p, NatPair(p.rest));
    }
  }

  lemma ParseMessageSuffix(d: Dialect, out: Outstanding, b: bytes)
    ensures ParseMessage(d, out, b).LeavesSuffixOf(b)
  {
    NatPairSuffix(b);
    var p := NatPair(b);
    if p.Ok? && p.value.1 in d.messages {
      ParseSuffix(d.messages[p.value.1], p.rest);
      SuffixThen(b, p, Parse(d.messages[p.value.1], p.rest));
    }
  }

  lemma ParseResponseSuffix(d: Dialect, out: Outstanding, b: bytes)
    ensures ParseResponse(d, out, b).LeavesSuffixOf(b)
  {
    FirstNonSpaceSuffix(b);
    var p := FirstNonSpace(b);
    if p.Ok? {
      ParseOkReplySuffix(d, out, p.rest);
      SuffixThen(b, p, ParseOkReply(d, out, p.rest));
      ParseErrorReplySuffix(d, out, p.rest);
      SuffixThen(b, p, ParseErrorReply(d, out, p.rest));
      ParseMessageSuffix(d, out, p.rest);
      SuffixThen(b, p, ParseMessage(d, out, p.rest));
    }
  }

  // ---------- What a response does to the outstanding requests ----------

  /** `resp` answers one of `out`, by the type of the call it answers, or is a message. */
  ghost predicate Answers(d: Dialect, out: Outstanding, resp: Response, out': Outstanding) {
    match resp
    case Reply(refNo, value, _) =>
      && refNo in out && out' == out - {refNo}
      && out[refNo] in d.replies && HasType(value, d.replies[out[refNo]])
    case ErrorReply(refNo, errorNo, _, _) =>
      refNo in out && out' == out - {refNo} && errorNo in d.errors
    case Message(msgNo, value, _) =>
      out' == out && msgNo in d.messages && HasType(value, d.messages[msgNo])
  }

  ghost predicate AnswersIfOk(d: Dialect, out: Outstanding, p: Parsed<(Response, Outstanding)>) {
    p.Ok? ==> Answers(d, out, p.value.0, p.value.1)
  }

  lemma OkReplyAnswers(d: Dialect, out: Outstanding, b: bytes)
    ensures AnswersIfOk(d, out, ParseOkReply(d, out, b))
  {
    var refNo := Nat(b);
    if refNo.Ok? && refNo.value in out && out[refNo.value] in d.replies {
      ParseTyped(d.replies[out[refNo.value]], refNo.rest);
    }
  }

  lemma MessageAnswers(d: Dialect, out: Outstanding, b: bytes)
    ensures AnswersIfOk(d, out, ParseMessage(d, out, b))
  {
    var header := NatPair(b);
    if header.Ok? && header.value.1 in d.messages {
      ParseTyped(d.messages[header.value.1], header.rest);
    }
  }

  /** Every response that is read answers an outstanding request at the type of its call, or is a known message. */
  lemma ResponseAnswers(d: Dialect, out: Outstanding, b: bytes)
    ensures AnswersIfOk(d, out, ParseResponse(d, out, b))
  {
    var p := FirstNonSpace(b);
    if p.Ok? {
      OkReplyAnswers(d, out, p.rest);
      assert AnswersIfOk(d, out, ParseErrorReply(d, out, p.rest));
      MessageAnswers(d, out, p.rest);
    }
  }

  // ---------- Whole runs ----------

  datatype Ending = Waiting | Failed(error: WireError)

  datatype Transcript =
    Transcript(responses: seq<Response>, outstanding: Outstanding, ending: Ending, rest: bytes)
  {
    function After(earlier: seq<Response>): Transcript {
      this.(responses := earlier + responses)
    }
  }

  /** Reads responses until the bytes run out or an error is raised. */
  function Run(d: Dialect, out: Outstanding, b: bytes): (t: Transcript)
    decreases |b|
  {
    match ParseResponse(d, out, b)
    case More => Transcript([], out, Waiting, b)
    case Bad(e, r) => Transcript([], out, Failed(e), r)
    case Ok((resp, out'), r) => Run(d, out', r).After([resp])
  }

  lemma AfterAfter(t: Transcript, a: seq<Response>, b: seq<Response>)
    ensures t.After(b).After(a) == t.After(a + b)
  {
    assert a + (b + t.responses) == a + b + t.responses;
  }

  lemma AfterNothing(t: Transcript)
    ensures t.After([]) == t
  {
    assert [] + t.responses == t.responses;
  }

  /** The run behind one response, with `seen` in front of it. */
  lemma RunStep(d: Dialect, out: Outstanding, b: bytes, seen: seq<Response>)
    ensures var p := ParseResponse(d, out, b);
            && (p.More? ==> Run(d, out, b).After(seen) == Transcript(seen, out, Waiting, b))
            && (p.Bad? ==> Run(d, out, b).After(seen) == Transcript(seen, out, Failed(p.error), p.rest))
            && (p.Ok? ==> Run(d, out, b).After(seen) == Run(d, p.value.1, p.rest).After(seen + [p.value.0]))
  {
    var p := ParseResponse(d, out, b);
    if p.Ok? {
      AfterAfter(Run(d, p.value.1, p.rest), seen, [p.value.0]);
    } else {
      assert seen + [] == seen;
    }
  }

  /** A run that ran out of bytes goes on from where it stood; one that failed has failed for good. */
  lemma {:induction false} RunResumes(d: Dialect, out: Outstanding, b: bytes, s: bytes)
    ensures var t := Run(d, out, b);
            Run(d, out, b + s) ==
            if t.ending.Waiting? then Run(d, t.outstanding, t.rest + s).After(t.responses)
            else t.(rest := t.rest + s)
    decreases |b|
  {
    ParseResponseStable(d, out, b, s);
    var p := ParseResponse(d, out, b);
    if p.Ok? {
      var (resp, out') := p.value;
      RunResumes(d, out', p.rest, s);
      var t := Run(d, out', p.rest);
      if t.ending.Waiting? {
        AfterAfter(Run(d, t.outstanding, t.rest + s), [resp], t.responses);
      }
    } else if p.More? {
      AfterNothing(Run(d, out, b + s));
    }
  }

  // ---------- Requests that are sent while the receiver waits ----------

  /** The outcome of reading a response does not depend on requests it does not name. */
  ghost predicate Grown(p: Parsed<(Response, Outstanding)>, q: Parsed<(Response, Outstanding)>, more: Outstanding) {
    match p
    case Ok((resp, out'), r) => q == Ok((resp, out' + more), r)
    case Bad(BadRequestId(ref), _) => ref !in more ==> q == p
    case _ => q == p
  }

  lemma Removal(out: Outstanding, more: Outstanding, ref: nat)
    requires ref in out && out.Keys !! more.Keys
    ensures (out + more) - {ref} == (out - {ref}) + more
  {
  }

  lemma OkReplyGrows(d: Dialect, out: Outstanding, more: Outstanding, b: bytes)
    requires out.Keys !! more.Keys
    ensures Grown(ParseOkReply(d, out, b), ParseOkReply(d, out + more, b), more)
  {
    var ref := Nat(b);
    if ref.Ok? && ref.value in out {
      Removal(out, more, ref.value);
    }
  }

  lemma ErrorReplyGrows(d: Dialect, out: Outstanding, more: Outstanding, b: bytes)
    requires out.Keys !! more.Keys
    ensures Grown(ParseErrorReply(d, out, b), ParseErrorReply(d, out + more, b), more)
  {
    var ref := Nat(b);
    if ref.Ok? && ref.value in out {
      Removal(out, more, ref.value);
    }
  }

  lemma MessageGrows(d: Dialect, out: Outstanding, more: Outstanding, b: bytes)
    ensures Grown(ParseMessage(d, out, b), ParseMessage(d, out + more, b), more)
  {
  }

  lemma ResponseGrows(d: Dialect, out: Outstanding, more: Outstanding, b: bytes)
    requires out.Keys !! more.Keys
    ensures Grown(ParseResponse(d, out, b), ParseResponse(d, out + more, b), more)
  {
    var ch := FirstNonSpace(b);
    if ch.Ok? {
      OkReplyGrows(d, out, more, ch.rest);
      ErrorReplyGrows(d, out, more, ch.rest);
      MessageGrows(d, out, more, ch.rest);
    }
  }

  /** The run ends because a response names one of `refs`, which was not outstanding. */
  predicate Names(t: Transcript, refs: set<nat>) {
    t.ending.Failed? && t.ending.error.BadRequestId? && t.ending.error.refNo in refs
  }

  /** Requests that no response of a run names wait in the table while it runs, and change nothing else. */
  lemma {:induction false} RunGrows(d: Dialect, out: Outstanding, more: Outstanding, b: bytes)
    requires out.Keys !! more.Keys && !Names(Run(d, out, b), more.Keys)
    ensures var t := Run(d, out, b);
            t.outstanding.Keys <= out.Keys && Run(d, out + more, b) == t.(outstanding := t.outstanding + more)
    decreases |b|
  {
    ResponseGrows(d, out, more, b);
    ResponseAnswers(d, out, b);
    var p := ParseResponse(d, out, b);
    if p.Ok? {
      var (resp, out') := p.value;
      RunGrows(d, out', more, p.rest);
    }
  }

  /** Reading `seen` leads from one table and stream to another. */
  ghost predicate Reaches(d: Dialect, out0: Outstanding, b0: bytes, seen: seq<Response>, out: Outstanding, b: bytes)
    decreases |seen|
  {
    if seen == [] then out == out0 && b == b0
    else
      var p := ParseResponse(d, out0, b0);
      p.Ok? && p.value.0 == seen[0] && Reaches(d, p.value.1, p.rest, seen[1..], out, b)
  }

  lemma {:induction false} ReachesRun(d: Dialect, out0: Outstanding, b0: bytes, seen: seq<Response>, out: Outstanding,
                                      b: bytes)
    requires Reaches(d, out0, b0, seen, out, b)
    ensures Run(d, out0, b0) == Run(d, out, b).After(seen)
    decreases |seen|
  {
    if seen == [] {
      AfterNothing(Run(d, out, b));
    } else {
      var p := ParseResponse(d, out0, b0);
      ReachesRun(d, p.value.1, p.rest, seen[1..], out, b);
      AfterAfter(Run(d, out, b), [seen[0]], seen[1..]);
    }
  }

  lemma {:induction false} ReachesSnoc(d: Dialect, out0: Outstanding, b0: bytes, seen: seq<Response>,
                                       out: Outstanding, b: bytes)
    requires Reaches(d, out0, b0, seen, out, b) && ParseResponse(d, out, b).Ok?
    ensures var p := ParseResponse(d, out, b); Reaches(d, out0, b0, seen + [p.value.0], p.value.1, p.rest)
    decreases |seen|
  {
    var next := ParseResponse(d, out, b).value.0;
    if seen == [] {
      assert (seen + [next])[1..] == [];
    } else {
      var p := ParseResponse(d, out0, b0);
      ReachesSnoc(d, p.value.1, p.rest, seen[1..], out, b);
      assert (seen + [next])[1..] == seen[1..] + [next];
    }
  }

  /** A request that was sent later could have been in the table from the start. */
  lemma {:induction false} ReachesGrows(d: Dialect, out0: Outstanding, b0: bytes, seen: seq<Response>,
                                        out: Outstanding, b: bytes, more: Outstanding)
    requires Reaches(d, out0, b0, seen, out, b) && out0.Keys !! more.Keys
    ensures Reaches(d, out0 + more, b0, seen, out + more, b)
    decreases |seen|
  {
    if seen != [] {
      ResponseGrows(d, out0, more, b0);
      ResponseAnswers(d, out0, b0);
      var p := ParseResponse(d, out0, b0);
      ReachesGrows(d, p.value.1, p.rest, seen[1..], out, b, more);
    }
  }

  // ---------- Whole runs, in the order in which things happen ----------

  /** What happens to a connection from outside: bytes arrive, a request is sent. */
  datatype Event = Chunk(data: bytes) | Sent(refNo: nat, callNo: nat)

  function ChunksOf(events: seq<Event>): bytes {
    if events == [] then []
    else (if events[0].Chunk? then events[0].data else []) + ChunksOf(events[1..])
  }

  function SentIn(events: seq<Event>): Outstanding {
    if events == [] then map[]
    else if events[0].Chunk? then SentIn(events[1..])
    else map[events[0].refNo := events[0].callNo] + SentIn(events[1..])
  }

  /** Numbers are not used twice. */
  predicate DistinctSends(events: seq<Event>) {
    events == [] ||
    (DistinctSends(events[1..]) && (events[0].Sent? ==> events[0].refNo !in SentIn(events[1..])))
  }

  /** The table and the bytes behind one more event. */
  function With(out: Outstanding, event: Event): Outstanding {
    if event.Chunk? then out else out[event.refNo := event.callNo]
  }

  function Held(buffer: bytes, event: Event): bytes {
    if event.Chunk? then buffer + event.data else buffer
  }

  lemma PutFirst(out: Outstanding, ref: nat, callNo: nat, more: Outstanding)
    ensures out + (map[ref := callNo] + more) == out[ref := callNo] + more
  {
  }

  lemma MapsAssociate(a: Outstanding, b: Outstanding, c: Outstanding)
    ensures a + (b + c) == a + b + c
  {
  }

  lemma {:induction false} FirstEvent(out: Outstanding, buffer: bytes, events: seq<Event>)
    requires events != []
    ensures out + SentIn(events) == With(out, events[0]) + SentIn(events[1..])
    ensures buffer + ChunksOf(events) == Held(buffer, events[0]) + ChunksOf(events[1..])
  {
    match events[0]
    case Chunk(data) => Regroup(buffer, data, ChunksOf(events[1..]));
    case Sent(ref, callNo) =>
      PutFirst(out, ref, callNo, SentIn(events[1..]));
      assert [] + ChunksOf(events[1..]) == ChunksOf(events[1..]);
  }

  /** The reader that parses what it has, keeps the unparsed bytes, and goes on when something happens.  After an error
      nothing is parsed any more, but requests are still sent. */
  function Serve(d: Dialect, out: Outstanding, buffer: bytes, events: seq<Event>): Transcript
    decreases |events|
  {
    var t := Run(d, out, buffer);
    if events == [] then t
    else if t.ending.Failed? then
      t.(rest := t.rest + ChunksOf(events), outstanding := t.outstanding + SentIn(events))
    else Serve(d, With(t.outstanding, events[0]), Held(t.rest, events[0]), events[1..]).After(t.responses)
  }

  /** Some response names a request before it is sent. */
  ghost predicate Overtaken(d: Dialect, out: Outstanding, buffer: bytes, events: seq<Event>)
    decreases |events|
  {
    events != [] &&
    var t := Run(d, out, buffer);
    if t.ending.Failed? then Names(t, SentIn(events).Keys)
    else Overtaken(d, With(t.outstanding, events[0]), Held(t.rest, events[0]), events[1..])
  }

  /** A run that waits, with more requests in the table and more bytes to come. */
  lemma RunWaits(d: Dialect, out: Outstanding, buffer: bytes, more: Outstanding, later: bytes)
    requires out.Keys !! more.Keys && Run(d, out, buffer).ending.Waiting?
    ensures var t := Run(d, out, buffer);
            && t.outstanding.Keys <= out.Keys
            && Run(d, out + more, buffer + later) == Run(d, t.outstanding + more, t.rest + later).After(t.responses)
  {
    RunGrows(d, out, more, buffer);
    RunResumes(d, out + more, buffer, later);
  }

  lemma {:induction false} ServeIsRun(d: Dialect, out: Outstanding, buffer: bytes, events: seq<Event>)
    requires DistinctSends(events) && out.Keys !! SentIn(events).Keys && !Overtaken(d, out, buffer, events)
    ensures Serve(d, out, buffer, events) == Run(d, out + SentIn(events), buffer + ChunksOf(events))
    decreases |events|
  {
    var t, more, later := Run(d, out, buffer), SentIn(events), ChunksOf(events);
    if events == [] {
      assert out + more == out && buffer + later == buffer;
    } else if t.ending.Failed? {
      RunGrows(d, out, more, buffer);
      RunResumes(d, out + more, buffer, later);
    } else {
      RunWaits(d, out, buffer, more, later);
      FirstEvent(t.outstanding, t.rest, events);
      ServeIsRun(d, With(t.outstanding, events[0]), Held(t.rest, events[0]), events[1..]);
    }
  }

  lemma NamedIsKnown(d: Dialect, out: Outstanding, more: Outstanding, b: bytes)
    requires var p := ParseResponse(d, out, b); p.Bad? && p.error.BadRequestId? && p.error.refNo in more
    ensures var q := ParseResponse(d, out + more, b); !(q.Bad? && q.error.BadRequestId?)
  {
  }

  /** Where a response names one of `more`, the run that knows it goes another way. */
  lemma {:induction false} OvertakenRunDiffers(d: Dialect, out: Outstanding, more: Outstanding, b: bytes, s: bytes)
    requires out.Keys !! more.Keys && Names(Run(d, out, b), more.Keys)
    ensures var t, u := Run(d, out, b), Run(d, out + more, b + s);
            |t.responses| < |u.responses| || t.ending != u.ending
    decreases |b|
  {
    var p := ParseResponse(d, out, b);
    ParseResponseStable(d, out, b, s);
    if p.Ok? {
      ResponseGrows(d, out, more, b + s);
      ResponseAnswers(d, out, b);
      OvertakenRunDiffers(d, p.value.1, more, p.rest, s);
    } else {
      NamedIsKnown(d, out, more, b + s);
    }
  }

  lemma AfterInjective(t: Transcript, u: Transcript, earlier: seq<Response>)
    requires t.After(earlier) == u.After(earlier)
    ensures t == u
  {
    assert t.responses == (earlier + t.responses)[|earlier|..];
    assert u.responses == (earlier + u.responses)[|earlier|..];
  }

  lemma {:induction false} OvertakenDiffers(d: Dialect, out: Outstanding, buffer: bytes, events: seq<Event>)
    requires DistinctSends(events) && out.Keys !! SentIn(events).Keys && Overtaken(d, out, buffer, events)
    ensures Serve(d, out, buffer, events) != Run(d, out + SentIn(events), buffer + ChunksOf(events))
    decreases |events|
  {
    var t, more, later := Run(d, out, buffer), SentIn(events), ChunksOf(events);
    if t.ending.Failed? {
      OvertakenRunDiffers(d, out, more, buffer, later);
    } else {
      RunWaits(d, out, buffer, more, later);
      FirstEvent(t.outstanding, t.rest, events);
      var out', buffer' := With(t.outstanding, events[0]), Held(t.rest, events[0]);
      OvertakenDiffers(d, out', buffer', events[1..]);
      if Serve(d, out, buffer, events) == Run(d, out + more, buffer + later) {
        AfterInjective(Serve(d, out', buffer', events[1..]), Run(d, t.outstanding + more, t.rest + later), t.responses);
      }
    }
  }

  /** However a stream is sliced, and whenever requests are sent in between: the responses, the first error, the
      outstanding requests and the unread bytes are those of the stream read at once with all requests sent before, if
      and only if no response names a request before it is sent. */
  lemma InterleavingIndependence(d: Dialect, out: Outstanding, buffer: bytes, events: seq<Event>)
    requires DistinctSends(events) && out.Keys !! SentIn(events).Keys
    ensures Serve(d, out, buffer, events) == Run(d, out + SentIn(events), buffer + ChunksOf(events))
       <==> !Overtaken(d, out, buffer, events)
  {
    if Overtaken(d, out, buffer, events) {
      OvertakenDiffers(d, out, buffer, events);
    } else {
      ServeIsRun(d, out, buffer, events);
    }
  }

  lemma {:induction false} NothingSent(d: Dialect, out: Outstanding, buffer: bytes, events: seq<Event>)
    requires forall i :: 0 <= i < |events| ==> events[i].Chunk?
    ensures SentIn(events) == map[] && DistinctSends(events) && !Overtaken(d, out, buffer, events)
    decreases |events|
  {
    if events != [] {
      var t := Run(d, out, buffer);
      NothingSent(d, With(t.outstanding, events[0]), Held(t.rest, events[0]), events[1..]);
    }
  }

  /** Chunking independence: when no request is sent in between, slicing makes no difference at all. */
  lemma {:induction false} ChunkingIndependence(d: Dialect, out: Outstanding, buffer: bytes, events: seq<Event>)
    requires forall i :: 0 <= i < |events| ==> events[i].Chunk?
    ensures Serve(d, out, buffer, events) == Run(d, out, buffer + ChunksOf(events))
  {
    NothingSent(d, out, buffer, events);
    ServeIsRun(d, out, buffer, events);
    assert out + SentIn(events) == out;
  }

  // ---------- Events one after the other ----------

  lemma {:induction false} ChunksConcat(a: seq<Event>, b: seq<Event>)
    ensures ChunksOf(a + b) == ChunksOf(a) + ChunksOf(b)
  {
    if a == [] {
      assert a + b == b;
    } else {
      assert (a + b)[0] == a[0] && (a + b)[1..] == a[1..] + b;
      ChunksConcat(a[1..], b);
      Regroup(if a[0].Chunk? then a[0].data else [], ChunksOf(a[1..]), ChunksOf(b));
    }
  }

  lemma {:induction false} SentConcat(a: seq<Event>, b: seq<Event>)
    ensures SentIn(a + b) == SentIn(a) + SentIn(b)
  {
    if a == [] {
      assert a + b == b;
    } else {
      assert (a + b)[0] == a[0] && (a + b)[1..] == a[1..] + b;
      SentConcat(a[1..], b);
      if a[0].Sent? {
        MapsAssociate(map[a[0].refNo := a[0].callNo], SentIn(a[1..]), SentIn(b));
      }
    }
  }

  lemma {:induction false} DistinctConcat(a: seq<Event>, b: seq<Event>)
    requires DistinctSends(a) && DistinctSends(b) && SentIn(a).Keys !! SentIn(b).Keys
    ensures DistinctSends(a + b)
  {
    if a == [] {
      assert a + b == b;
    } else {
      assert (a + b)[0] == a[0] && (a + b)[1..] == a[1..] + b;
      SentConcat(a[1..], b);
      DistinctConcat(a[1..], b);
    }
  }

  lemma PutLast(out: Outstanding, more: Outstanding, ref: nat, callNo: nat)
    ensures more + (map[ref := callNo] + map[]) == more[ref := callNo]
    ensures out + more[ref := callNo] == (out + more)[ref := callNo]
  {
  }

  lemma {:induction false} SentSnoc(out: Outstanding, events: seq<Event>, e: Event)
    ensures SentIn(events + [e]) == With(SentIn(events), e)
    ensures out + SentIn(events + [e]) == With(out + SentIn(events), e)
  {
    SentConcat(events, [e]);
    assert [e][1..] == [];
    if e.Sent? {
      PutLast(out, SentIn(events), e.refNo, e.callNo);
    } else {
      assert SentIn(events) + map[] == SentIn(events);
    }
  }

  lemma ChunksSnoc(b: bytes, events: seq<Event>, e: Event)
    ensures ChunksOf(events + [e]) == Held(ChunksOf(events), e)
    ensures b + ChunksOf(events + [e]) == Held(b + ChunksOf(events), e)
  {
    ChunksConcat(events, [e]);
    assert [e][1..] == [];
    var data := if e.Chunk? then e.data else [];
    assert ChunksOf([e]) == data;
    Regroup(b, ChunksOf(events), data);
  }

  lemma DistinctSnoc(events: seq<Event>, e: Event)
    requires DistinctSends(events) && (e.Sent? ==> e.refNo !in SentIn(events))
    ensures DistinctSends(events + [e])
  {
    assert [e][1..] == [];
    DistinctConcat(events, [e]);
  }

  /** In front of each of the events the bytes that were there were not enough for a response. */
  ghost predicate Starves(d: Dialect, out: Outstanding, b: bytes, events: seq<Event>)
    decreases |events|
  {
    events == [] ||
    (ParseResponse(d, out, b).More? && Starves(d, With(out, events[0]), Held(b, events[0]), events[1..]))
  }

  lemma {:induction false} StarvesSnoc(d: Dialect, out: Outstanding, b: bytes, events: seq<Event>, e: Event)
    requires Starves(d, out, b, events) && ParseResponse(d, out + SentIn(events), b + ChunksOf(events)).More?
    ensures Starves(d, out, b, events + [e])
    decreases |events|
  {
    if events == [] {
      assert out + SentIn(events) == out && b + ChunksOf(events) == b;
      assert (events + [e])[0] == e && (events + [e])[1..] == [];
    } else {
      FirstEvent(out, b, events);
      assert (events + [e])[0] == events[0] && (events + [e])[1..] == events[1..] + [e];
      StarvesSnoc(d, With(out, events[0]), Held(b, events[0]), events[1..], e);
    }
  }

  /** While nothing can be parsed, sending a request does not change that. */
  lemma StillStarved(d: Dialect, out: Outstanding, b: bytes, ref: nat, callNo: nat)
    requires ref !in out && ParseResponse(d, out, b).More?
    ensures ParseResponse(d, out[ref := callNo], b).More?
  {
    ResponseGrows(d, out, map[ref := callNo], b);
    assert out + map[ref := callNo] == out[ref := callNo];
  }

  /** Serving goes on where it waits. */
  lemma {:induction false} ServeSnoc(d: Dialect, out: Outstanding, b: bytes, events: seq<Event>, e: Event)
    requires Serve(d, out, b, events).ending.Waiting?
    ensures var t := Serve(d, out, b, events);
            Serve(d, out, b, events + [e]) == Run(d, With(t.outstanding, e), Held(t.rest, e)).After(t.responses)
    decreases |events|
  {
    var t := Run(d, out, b);
    if events == [] {
      assert (events + [e])[0] == e && (events + [e])[1..] == [];
    } else {
      assert (events + [e])[0] == events[0] && (events + [e])[1..] == events[1..] + [e];
      var out', b' := With(t.outstanding, events[0]), Held(t.rest, events[0]);
      var u := Serve(d, out', b', events[1..]);
      ServeSnoc(d, out', b', events[1..], e);
      AfterAfter(Run(d, With(u.outstanding, e), Held(u.rest, e)), t.responses, u.responses);
    }
  }

  lemma Shift(served: seq<Event>, events: seq<Event>)
    requires events != []
    ensures served + events == served + [events[0]] + events[1..]
  {
  }

  lemma {:induction false} ServeOne(d: Dialect, out0: Outstanding, b0: bytes, served: seq<Event>,
                 out: Outstanding, b: bytes, seen: seq<Response>, e: Event)
    requires Serve(d, out0, b0, served) == Run(d, out, b).After(seen) && ParseResponse(d, out, b).More?
    ensures Serve(d, out0, b0, served + [e]) == Run(d, With(out, e), Held(b, e)).After(seen)
  {
    assert Run(d, out, b).After(seen) == Transcript(seen, out, Waiting, b) by { assert seen + [] == seen; }
    ServeSnoc(d, out0, b0, served, e);
  }

  /** What was served so far, and events that come while nothing can be parsed. */
  lemma {:induction false} ServeStarves(d: Dialect, out0: Outstanding, b0: bytes, served: seq<Event>,
                                        out: Outstanding, b: bytes,
                                        seen: seq<Response>, events: seq<Event>, all: seq<Event>)
    requires Serve(d, out0, b0, served) == Run(d, out, b).After(seen) && Starves(d, out, b, events)
    requires all == served + events
    ensures Serve(d, out0, b0, all) == Run(d, out + SentIn(events), b + ChunksOf(events)).After(seen)
    decreases |events|
  {
    if events == [] {
      assert all == served && out + SentIn(events) == out && b + ChunksOf(events) == b;
    } else {
      var e := events[0];
      Shift(served, events);
      ServeOne(d, out0, b0, served, out, b, seen, e);
      FirstEvent(out, b, events);
      ServeStarves(d, out0, b0, served + [e], With(out, e), Held(b, e), seen, events[1..], all);
    }
  }

  /** When no response is overtaken, what was served is what the whole stream holds, also the part that was not read. */
  lemma {:induction false} ServedStream(d: Dialect, out: Outstanding, buffer: bytes, events: seq<Event>, unread: bytes)
    requires DistinctSends(events) && out.Keys !! SentIn(events).Keys && !Overtaken(d, out, buffer, events)
    ensures var t := Serve(d, out, buffer, events);
            t.ending.Failed? || unread == [] ==>
              Run(d, out + SentIn(events), buffer + ChunksOf(events) + unread) == t.(rest := t.rest + unread)
  {
    var t := Serve(d, out, buffer, events);
    ServeIsRun(d, out, buffer, events);
    RunResumes(d, out + SentIn(events), buffer + ChunksOf(events), unread);
    if unread == [] {
      assert buffer + ChunksOf(events) + unread == buffer + ChunksOf(events) && t.rest + unread == t.rest;
    }
  }

  /** No byte is lost or read twice over a whole run. */
  lemma {:induction false} RunLeavesSuffix(d: Dialect, out: Outstanding, b: bytes)
    ensures IsSuffix(Run(d, out, b).rest, b)
    decreases |b|
  {
    ParseResponseSuffix(d, out, b);
    var p := ParseResponse(d, out, b);
    if p.Ok? {
      RunLeavesSuffix(d, p.value.1, p.rest);
      SuffixOfSuffix(b, p.rest, Run(d, p.value.1, p.rest).rest);
    }
  }

  /** The reference numbers that a list of responses answers. */
  function Answered(responses: seq<Response>): seq<nat> {
    if responses == [] then []
    else (if responses[0].Message? then [] else [responses[0].refNo]) + Answered(responses[1..])
  }

  /** `refs` are distinct members of `out`, and `out'` is what they leave. */
  ghost predicate EachOnce(out: Outstanding, refs: seq<nat>, out': Outstanding) {
    && (forall i :: 0 <= i < |refs| ==> refs[i] in out)
    && (forall i, j :: 0 <= i < j < |refs| ==> refs[i] != refs[j])
    && out' == out - (set r | r in refs)
  }

  lemma EachOnceCons(out: Outstanding, ref: nat, refs: seq<nat>, out': Outstanding)
    requires ref in out && EachOnce(out - {ref}, refs, out')
    ensures EachOnce(out, [ref] + refs, out')
  {
    assert (set r | r in [ref] + refs) == {ref} + (set r | r in refs);
    assert out - {ref} - (set r | r in refs) == out - ({ref} + (set r | r in refs));
  }

  /** Over a whole run every outstanding request is answered at most once; the others stay outstanding. */
  lemma {:induction false} RunAnswersOnce(d: Dialect, out: Outstanding, b: bytes)
    ensures EachOnce(out, Answered(Run(d, out, b).responses), Run(d, out, b).outstanding)
    decreases |b|
  {
    ResponseAnswers(d, out, b);
    var p := ParseResponse(d, out, b);
    if p.Ok? {
      var (resp, out') := p.value;
      RunAnswersOnce(d, out', p.rest);
      var t, t' := Run(d, out, b), Run(d, out', p.rest);
      assert t.responses[1..] == t'.responses;
      if !resp.Message? {
        EachOnceCons(out, resp.refNo, Answered(t'.responses), t'.outstanding);
      }
    } else {
      assert out - (set r: nat | r in Answered([])) == out;
    }
  }

  // ---------- Raw replies ----------

  /** reply_bytes[:-1] */
  function DropLast(s: bytes): bytes {
    if s == [] then [] else s[..|s| - 1]
  }

  /** The payload of a reply: its text, with the newline if the last value swallows it. */
  function PayloadOf(v: Value): bytes {
    if Swallows(v) then Print(v) + [NEWLINE] else Print(v)
  }

  lemma PayloadTaken(v: Value, later: bytes)
    ensures var body, after := Print(v) + ([NEWLINE] + later), [NEWLINE] + later;
            Taken(body, Rest(v, after)) == PayloadOf(v) && Rest(v, after) == if Swallows(v) then later else after
  {
    var after := [NEWLINE] + later;
    var body := Print(v) + after;
    assert after[1..] == later;
    assert Taken(body, after) == Print(v);
    assert Taken(body, later) == Print(v) + [NEWLINE];
  }

  /** A reply as the server writes it, newline included: the reference number, then the reply if it is not empty. */
  function ReplyLine(refNo: nat, v: Value, later: bytes): bytes {
    [EQUALS] + (Decimal(refNo) +
      (if v == Fields([]) then [NEWLINE] + later else [SPACE] + (Print(v) + ([NEWLINE] + later))))
  }

  /** What such a line leaves: the newline belongs to the reference number if there is nothing behind it. */
  function BehindReply(v: Value, later: bytes): bytes {
    if v == Fields([]) || Swallows(v) then later else [NEWLINE] + later
  }

  lemma BodyTaken(t: WireType, v: Value, later: bytes)
    requires v == Fields([]) || PrintableType(OnWire(t))
    requires Writable(v, OnWire(t))
    ensures var body := if v == Fields([]) then later else Print(v) + ([NEWLINE] + later);
            && |BehindReply(v, later)| <= |body|
            && Taken(body, BehindReply(v, later)) == PayloadOf(v)
            && Follows(Parse(t, body), Ok(AsSent(v), BehindReply(v, later)), Received(t, AsSent(v)))
  {
    if v == Fields([]) {
      assert Taken(later, later) == [];
      EmptyReceives(t, later);
    } else {
      PayloadTaken(v, later);
      ServerRoundTrip(t, v, [NEWLINE] + later);
    }
  }

  /** Nothing is read for an empty record. */
  lemma EmptyReceives(t: WireType, b: bytes)
    requires Writable(Fields([]), OnWire(t))
    ensures Follows(Parse(t, b), Ok(Fields([]), b), Received(t, Fields([])))
  {
    ParseReceives(t, b);
  }

  /** A reply line is read back with the type of the call it answers: as what the client makes of the value, or
      rejected because a conversion rejects it. */
  lemma ReplyRoundTrip(d: Dialect, out: Outstanding, refNo: nat, v: Value, later: bytes)
    requires refNo in out && out[refNo] in d.replies
    requires var t := d.replies[out[refNo]]; Writable(v, OnWire(t)) && (v == Fields([]) || PrintableType(OnWire(t)))
    ensures var received := Received(d.replies[out[refNo]], AsSent(v));
            Follows(ParseResponse(d, out, ReplyLine(refNo, v, later)), Ok(AsSent(v), BehindReply(v, later)),
                    if received.None? then None
                    else Some((Reply(refNo, received.value, PayloadOf(v)), out - {refNo})))
  {
    var t := d.replies[out[refNo]];
    var body := if v == Fields([]) then later else Print(v) + ([NEWLINE] + later);
    var tail := if v == Fields([]) then [NEWLINE] + later else [SPACE] + body;
    FirstIs(EQUALS, Decimal(refNo) + tail);
    NatOfDecimal(refNo, tail);
    assert tail[1..] == body;
    BodyTaken(t, v, later);
  }

  /** A raw reply, which is the payload without its last byte, is the reply's text exactly when the reply is empty or
      its last value swallows the newline: behind a string or a list the last real byte is cut off. */
  lemma RawReplyIsExact(d: Dialect, out: Outstanding, refNo: nat, v: Value, later: bytes)
    requires refNo in out && out[refNo] in d.replies
    requires var t := d.replies[out[refNo]];
             Writable(v, OnWire(t)) && (v == Fields([]) || PrintableType(OnWire(t))) && Received(t, AsSent(v)).Some?
    ensures var p := ParseResponse(d, out, ReplyLine(refNo, v, later));
            p.Ok? && (DropLast(p.value.0.payload) == Print(v) <==> v == Fields([]) || Swallows(v))
  {
    ReplyRoundTrip(d, out, refNo, v, later);
    if v != Fields([]) {
      PrintNonEmpty(OnWire(d.replies[out[refNo]]), v);
      assert DropLast(Print(v) + [NEWLINE]) == Print(v);
    }
  }
}
