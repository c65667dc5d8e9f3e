/** The blocking connection and the asyncio connection.

    Both are proved against `ParseResponse` on everything that is still to come: what the buffer holds and what
    the peer will send.  That neither depends on how the network slices the stream is part of their contracts. */
module Connections {
  import opened Options
  import opened Protocol
  import opened Requests
  import opened Responses
  import opened Buffers
  import opened Reader

  /** What the blocking connection returns: no raw bytes. */
  function Plain(resp: Response): Response {
    resp.(payload := [])
  }

  /** What the asyncio connection returns: the raw bytes without the last one. */
  function Raw(resp: Response): Response {
    resp.(payload := DropLast(resp.payload))
  }

  /** Call numbers of the outstanding requests. */
  function CallsOf(outstanding: map<nat, Request>): Outstanding {
    map r | r in outstanding :: outstanding[r].callNo
  }

  method ReadIntPair(src: Source) returns (r: Result<(nat, nat)>)
    requires src.Valid()
    modifies src.Repr()
    ensures src.Valid() && src.Fixed() == old(src.Fixed())
    ensures Agrees(r, NatPair(old(src.Contents())), old(src.Contents()), src.Contents())
  {
    var first :- ReadInt(src);
    var second :- ReadInt(src);
    return Done((first, second));
  }

  class Connection {
    const dialect: Dialect
    const buffer: ReceiveBuffer
    var refNo: nat
    var outstanding: map<nat, Request>

    constructor (dialect: Dialect, socket: ByteStream)
      requires socket.Valid()
      ensures Valid() && this.dialect == dialect && buffer.socket == socket && fresh(buffer)
      ensures refNo == 0 && outstanding == map[] && Stream() == socket.Pending()
    {
      this.dialect := dialect;
      buffer := new ReceiveBuffer(socket);
      refNo, outstanding := 0, map[];
    }

    ghost function Repr(): set<object> {
      {this, buffer, buffer.socket}
    }

    ghost predicate Valid()
      reads Repr()
    {
      buffer.Valid() && forall r :: r in outstanding ==> 1 <= r <= refNo
    }

    /** Everything that is still to be read. */
    ghost function Stream(): bytes
      requires Valid()
      reads Repr()
    {
      buffer.Contents()
    }

    ghost function Calls(): Outstanding
      reads this
    {
      CallsOf(outstanding)
    }

    method SendString(s: bytes)
      modifies buffer.socket`sent
      ensures buffer.socket.sent == old(buffer.socket.sent) + s
    {
      var left := s;
      while |left| > 0
        invariant buffer.socket.sent + left == old(buffer.socket.sent) + s
        decreases |left|
      {
        var done := buffer.socket.Send(left);
        assert left == left[..done] + left[done..];
        left := left[done..];
      }
    }

    /** Sends a request under the next reference number, which was never used before. */
    method SendRequest(req: Request) returns (ref: nat)
      requires Valid()
      modifies this`refNo, this`outstanding, buffer.socket`sent
      ensures Valid() && Stream() == old(Stream())
      ensures ref == refNo == old(refNo) + 1
      ensures ref !in old(outstanding) && outstanding == old(outstanding)[ref := req]
      ensures Calls() == old(Calls())[ref := req.callNo]
      ensures buffer.socket.sent == old(buffer.socket.sent) + RequestLine(ref, req)
    {
      refNo := refNo + 1;
      ref := refNo;
      assert ref !in outstanding;
      SendString(RequestLine(ref, req));
      outstanding := outstanding[ref := req];
    }

    /** read_response */
    method ReadResponse() returns (r: Result<Response>)
      requires Valid()
      modifies this`outstanding, buffer, buffer.socket
      ensures Valid() && buffer.socket.sent == old(buffer.socket.sent)
      ensures match ParseResponse(dialect, old(Calls()), old(Stream()))
              case Ok((resp, out'), rest) => r == Done(Plain(resp)) && Calls() == out' && Stream() == rest
              case Bad(e, rest) => r == Raised(e) && outstanding == old(outstanding) && Stream() == rest
              case More => r == Starved && outstanding == old(outstanding) && |Stream()| <= |old(Stream())|
      ensures outstanding ==
                if r.Done? && !r.value.Message? then old(outstanding) - {r.value.refNo} else old(outstanding)
    {
      var src := Pull(buffer);
      var ch :- ReadFirstNonWs(src);
      if ch == EQUALS {
        r := ParseOk(src);
      } else if ch == PERCENT {
        r := ParseError(src);
      } else if ch == COLON {
        r := ParseMsg(src);
      } else {
        return Raised(ProtocolError);
      }
    }

    method ParseOk(src: Source) returns (r: Result<Response>)
      requires Valid() && src == Pull(buffer)
      modifies this`outstanding, buffer, buffer.socket
      ensures Valid() && src.Fixed() == old(src.Fixed())
      ensures match ParseOkReply(dialect, old(Calls()), old(Stream()))
              case Ok((resp, out'), rest) => r == Done(Plain(resp)) && Calls() == out' && Stream() == rest
              case Bad(e, rest) => r == Raised(e) && outstanding == old(outstanding) && Stream() == rest
              case More => r == Starved && outstanding == old(outstanding) && |Stream()| <= |old(Stream())|
      ensures r.Done? ==> r.value.Reply? && outstanding == old(outstanding) - {r.value.refNo}
    {
      var ref :- ReadInt(src);
      if ref !in outstanding {
        return Raised(BadRequestId(ref));
      }
      var req := outstanding[ref];
      if req.callNo !in dialect.replies {
        return Raised(UnknownCall(req.callNo));
      }
      var resp :- ReadValue(dialect.replies[req.callNo], src);
      outstanding := outstanding - {ref};
      return Done(Reply(ref, resp, []));
    }

    method ParseError(src: Source) returns (r: Result<Response>)
      requires Valid() && src == Pull(buffer)
      modifies this`outstanding, buffer, buffer.socket
      ensures Valid() && src.Fixed() == old(src.Fixed())
      ensures match ParseErrorReply(dialect, old(Calls()), old(Stream()))
              case Ok((resp, out'), rest) => r == Done(Plain(resp)) && Calls() == out' && Stream() == rest
              case Bad(e, rest) => r == Raised(e) && outstanding == old(outstanding) && Stream() == rest
              case More => r == Starved && outstanding == old(outstanding) && |Stream()| <= |old(Stream())|
      ensures r.Done? ==> r.value.ErrorReply? && outstanding == old(outstanding) - {r.value.refNo}
    {
      var ref :- ReadInt(src);
      if ref !in outstanding {
        return Raised(BadRequestId(ref));
      }
      var codes :- ReadIntPair(src);
      var (errorNo, errorStatus) := codes;
      if errorNo !in dialect.errors {
        return Raised(UnknownErrorNumber(errorNo));
      }
      outstanding := outstanding - {ref};
      return Done(ErrorReply(ref, errorNo, errorStatus, []));
    }

    method ParseMsg(src: Source) returns (r: Result<Response>)
      requires Valid() && src == Pull(buffer)
      modifies buffer, buffer.socket
      ensures Valid() && src.Fixed() == old(src.Fixed())
      ensures match ParseMessage(dialect, old(Calls()), old(Stream()))
              case Ok((resp, out'), rest) => r == Done(Plain(resp)) && Calls() == out' && Stream() == rest
              case Bad(e, rest) => r == Raised(e) && Stream() == rest
              case More => r == Starved && |Stream()| <= |old(Stream())|
      ensures r.Done? ==> r.value.Message?
    {
      var header :- ReadIntPair(src);
      var msgNo := header.1;
      if msgNo !in dialect.messages {
        return Raised(UnimplementedAsync(msgNo));
      }
      var msg :- ReadValue(dialect.messages[msgNo], src);
      return Done(Message(msgNo, msg, []));
    }
  }

  /** The bytes between two read positions are those taken off what was unread at the first. */
  lemma TakenFromBuffer(rb: bytes, start: nat, pos: nat)
    requires start <= |rb| && pos <= |rb| && |rb[pos..]| <= |rb[start..]|
    ensures rb[start..pos] == Taken(rb[start..], rb[pos..])
  {
  }

  function AllPlain(responses: seq<Response>): seq<Response> {
    seq(|responses|, i requires 0 <= i < |responses| => Plain(responses[i]))
  }

  /** With the requests in `sent`, all of them new, reading `seen` leads to the table `out` and the stream `b`. */
  ghost predicate HasRead(d: Dialect, out0: Outstanding, b0: bytes, ref0: nat, sent: Outstanding,
                          seen: seq<Response>, refNo: nat, out: Outstanding, b: bytes)
  {
    && ref0 <= refNo
    && (forall r :: r in out0 ==> r <= ref0)
    && (forall r :: r in sent ==> ref0 < r <= refNo)
    && Reaches(d, out0 + sent, b0, seen, out, b)
  }

  lemma PutOne(out: Outstanding, ref: nat, callNo: nat)
    ensures out + map[ref := callNo] == out[ref := callNo]
  {
  }

  lemma HasSent(d: Dialect, out0: Outstanding, b0: bytes, ref0: nat, sent: Outstanding,
                seen: seq<Response>, refNo: nat, out: Outstanding, b: bytes, ref: nat, callNo: nat)
    requires HasRead(d, out0, b0, ref0, sent, seen, refNo, out, b) && ref == refNo + 1
    ensures HasRead(d, out0, b0, ref0, sent[ref := callNo], seen, ref, out[ref := callNo], b)
  {
    var more: Outstanding := map[ref := callNo];
    assert ref !in out0 + sent;
    ReachesGrows(d, out0 + sent, b0, seen, out, b, more);
    MapsAssociate(out0, sent, more);
    PutOne(sent, ref, callNo);
    PutOne(out, ref, callNo);
  }

  method SendEach(conn: Connection, reqs: seq<Request>, ghost out0: Outstanding, ghost b0: bytes, ghost ref0: nat,
                  ghost sent: Outstanding, ghost seen: seq<Response>)
    returns (ghost sent': Outstanding)
    requires conn.Valid()
    requires HasRead(conn.dialect, out0, b0, ref0, sent, seen, conn.refNo, conn.Calls(), conn.Stream())
    modifies conn`refNo, conn`outstanding, conn.buffer.socket`sent
    ensures conn.Valid() && conn.Stream() == old(conn.Stream())
    ensures HasRead(conn.dialect, out0, b0, ref0, sent', seen, conn.refNo, conn.Calls(), conn.Stream())
  {
    sent' := sent;
    ghost var b := conn.Stream();
    for i := 0 to |reqs|
      invariant conn.Valid() && conn.Stream() == b
      invariant HasRead(conn.dialect, out0, b0, ref0, sent', seen, conn.refNo, conn.Calls(), b)
    {
      ghost var out, refNo := conn.Calls(), conn.refNo;
      var ref := conn.SendRequest(reqs[i]);
      HasSent(conn.dialect, out0, b0, ref0, sent', seen, refNo, out, b, ref, reqs[i].callNo);
      sent' := sent'[ref := reqs[i].callNo];
    }
  }

  /** read_response again and again, until it raises an exception, with requests `others` sent in front of each: the
      responses of the whole stream, in order, as if all requests had been sent at the start. */
  method ReadAll(conn: Connection, others: seq<seq<Request>>)
    returns (received: seq<Response>, ghost ending: Ending, ghost sent: Outstanding)
    requires conn.Valid()
    modifies conn`refNo, conn`outstanding, conn.buffer, conn.buffer.socket
    ensures conn.Valid() && forall r :: r in sent ==> old(conn.refNo) < r <= conn.refNo
    ensures var t := Run(conn.dialect, old(conn.Calls()) + sent, old(conn.Stream()));
            && received == AllPlain(t.responses) && conn.Calls() == t.outstanding && ending == t.ending
            && (ending.Failed? ==> conn.Stream() == t.rest)
  {
    received, sent := [], map[];
    var left := others;
    ghost var d, out0, b0, ref0, seen: seq<Response> := conn.dialect, conn.Calls(), conn.Stream(), conn.refNo, [];
    assert out0 + sent == out0;
    while true
      invariant conn.Valid() && received == AllPlain(seen)
      invariant HasRead(d, out0, b0, ref0, sent, seen, conn.refNo, conn.Calls(), conn.Stream())
      decreases |conn.Stream()|
    {
      if left != [] {
        sent := SendEach(conn, left[0], out0, b0, ref0, sent, seen);
        left := left[1..];
      }
      ghost var out, b := conn.Calls(), conn.Stream();
      ghost var p := ParseResponse(d, out, b);
      NextRead(d, out0, b0, ref0, sent, seen, conn.refNo, out, b);
      var r := conn.ReadResponse();
      if !r.Done? {
        ending := if r.Starved? then Waiting else Failed(r.error);
        return;
      }
      received := received + [r.value];
      seen := seen + [p.value.0];
    }
  }

  lemma NextRead(d: Dialect, out0: Outstanding, b0: bytes, ref0: nat, sent: Outstanding,
                 seen: seq<Response>, refNo: nat, out: Outstanding, b: bytes)
    requires HasRead(d, out0, b0, ref0, sent, seen, refNo, out, b)
    ensures var p := ParseResponse(d, out, b);
            && (p.More? ==> Run(d, out0 + sent, b0) == Transcript(seen, out, Waiting, b))
            && (p.Bad? ==> Run(d, out0 + sent, b0) == Transcript(seen, out, Failed(p.error), p.rest))
            && (p.Ok? ==> HasRead(d, out0, b0, ref0, sent, seen + [p.value.0], refNo, p.value.1, p.rest))
  {
    ReachesRun(d, out0 + sent, b0, seen, out, b);
    RunStep(d, out, b, seen);
    if ParseResponse(d, out, b).Ok? {
      ReachesSnoc(d, out0 + sent, b0, seen, out, b);
    }
  }

  /** What the asyncio connection hands on. */
  function AllRaw(responses: seq<Response>): seq<Response> {
    seq(|responses|, i requires 0 <= i < |responses| => Raw(responses[i]))
  }

  /** The outcome of reading a response from `before`, which leaves `after`. */
  ghost predicate Reads(p: Parsed<(Response, Outstanding)>, r: Result<Response>,
                        out: Outstanding, out': Outstanding, before: bytes, after: bytes)
  {
    match p
    case Ok((resp, left), rest) => r == Done(Raw(resp)) && out' == left && after == rest
    case Bad(e, rest) => r == Raised(e) && out' == out && after == rest
    case More => r == Starved && out' == out && after == before
  }

  /** What was read from the bytes that had arrived would be read from the whole stream. */
  lemma ReadsOn(d: Dialect, out: Outstanding, held: bytes, pending: bytes, r: Result<Response>, out': Outstanding,
                after: bytes)
    requires Reads(ParseResponse(d, out, held), r, out, out', held, after) && (r.Starved? ==> pending == [])
    ensures Reads(ParseResponse(d, out, held + pending), r, out, out', held + pending, after + pending)
  {
    ParseResponseStable(d, out, held, pending);
    assert pending == [] ==> held + pending == held && after + pending == after;
  }

  /** No number is used twice, and all are new. */
  ghost predicate Fresh(last: nat, refNo: nat, events: seq<Event>) {
    DistinctSends(events) && forall ref :: ref in SentIn(events) ==> last < ref <= refNo
  }

  /** What the receiver handed on, and where it ended, is what the transcript says. */
  ghost predicate HandedOn(t: Transcript, received: seq<Response>, out: Outstanding, ending: Ending, left: bytes) {
    received == AllRaw(t.responses) && out == t.outstanding && ending == t.ending && left == t.rest
  }

  /** The receiver has handed on `seen`, and goes on with `out` and `b`. */
  ghost predicate Serving(d: Dialect, out0: Outstanding, b0: bytes, served: seq<Event>,
                          out: Outstanding, b: bytes, seen: seq<Response>)
  {
    Serve(d, out0, b0, served) == Run(d, out, b).After(seen)
  }

  /** One round of the receiver, in terms of what it served. */
  lemma Received(d: Dialect, out0: Outstanding, b0: bytes, served: seq<Event>, out: Outstanding, b: bytes,
                 seen: seq<Response>, more: seq<Event>, r: Result<Response>, out': Outstanding, b': bytes)
    returns (seen': seq<Response>, ending: Ending)
    requires Serving(d, out0, b0, served, out, b, seen) && Starves(d, out, b, more)
    requires var sent, held := out + SentIn(more), b + ChunksOf(more);
             Reads(ParseResponse(d, sent, held), r, sent, out', held, b')
    ensures if r.Done?
            then AllRaw(seen') == AllRaw(seen) + [r.value] && Serving(d, out0, b0, served + more, out', b', seen')
            else seen' == seen && Serve(d, out0, b0, served + more) == Transcript(seen, out', ending, b')
    ensures !r.Done? ==> (ending.Waiting? <==> r.Starved?)
  {
    var p := ParseResponse(d, out + SentIn(more), b + ChunksOf(more));
    ServeStarves(d, out0, b0, served, out, b, seen, more, served + more);
    RunStep(d, out + SentIn(more), b + ChunksOf(more), seen);
    seen' := if p.Ok? then seen + [p.value.0] else seen;
    ending := Serve(d, out0, b0, served + more).ending;
  }

  lemma NothingYet(out: Outstanding, b: bytes)
    ensures out + SentIn([]) == out && b + ChunksOf([]) == b
  {
  }

  lemma SentOne(d: Dialect, out0: Outstanding, b0: bytes, events: seq<Event>, ref: nat, callNo: nat)
    requires DistinctSends(events) && ref !in SentIn(events) && Starves(d, out0, b0, events)
    requires ParseResponse(d, out0 + SentIn(events), b0 + ChunksOf(events)).More?
    ensures var events' := events + [Sent(ref, callNo)];
            && SentIn(events') == SentIn(events)[ref := callNo] && ChunksOf(events') == ChunksOf(events)
            && out0 + SentIn(events') == (out0 + SentIn(events))[ref := callNo]
            && DistinctSends(events') && Starves(d, out0, b0, events')
  {
    SentSnoc(out0, events, Sent(ref, callNo));
    ChunksSnoc(b0, events, Sent(ref, callNo));
    DistinctSnoc(events, Sent(ref, callNo));
    StarvesSnoc(d, out0, b0, events, Sent(ref, callNo));
  }

  lemma {:induction false} ArrivedOne(d: Dialect, out0: Outstanding, b0: bytes, events: seq<Event>, data: bytes)
    requires DistinctSends(events) && Starves(d, out0, b0, events)
    requires ParseResponse(d, out0 + SentIn(events), b0 + ChunksOf(events)).More?
    ensures var events' := events + [Chunk(data)];
            && SentIn(events') == SentIn(events) && ChunksOf(events') == ChunksOf(events) + data
            && b0 + ChunksOf(events') == b0 + ChunksOf(events) + data
            && DistinctSends(events') && Starves(d, out0, b0, events')
  {
    SentSnoc(out0, events, Chunk(data));
    ChunksSnoc(b0, events, Chunk(data));
    DistinctSnoc(events, Chunk(data));
    StarvesSnoc(d, out0, b0, events, Chunk(data));
  }

  lemma {:induction false} MoreEvents(events: seq<Event>, more: seq<Event>, unread: bytes)
    requires DistinctSends(events) && DistinctSends(more) && SentIn(events).Keys !! SentIn(more).Keys
    ensures DistinctSends(events + more) && SentIn(events + more) == SentIn(events) + SentIn(more)
    ensures ChunksOf(events + more) + unread == ChunksOf(events) + (ChunksOf(more) + unread)
  {
    ChunksConcat(events, more);
    Regroup(ChunksOf(events), ChunksOf(more), unread);
    SentConcat(events, more);
    DistinctConcat(events, more);
  }

  /** Where the receiver ended, in terms of the whole stream. */
  lemma ServedAll(d: Dialect, out: Outstanding, b: bytes, ref: nat, events: seq<Event>, unread: bytes, whole: bytes,
                  received: seq<Response>, out': Outstanding, ending: Ending, left: bytes)
    requires DistinctSends(events) && whole == b + (ChunksOf(events) + unread)
    requires (forall r :: r in out ==> r <= ref) && (forall r :: r in SentIn(events) ==> ref < r)
    requires HandedOn(Serve(d, out, b, events), received, out', ending, left)
    requires ending.Failed? || unread == []
    ensures !Overtaken(d, out, b, events) ==>
              HandedOn(Run(d, out + SentIn(events), whole), received, out', ending, left + unread)
  {
    if !Overtaken(d, out, b, events) {
      ServedStream(d, out, b, events, unread);
      Regroup(b, ChunksOf(events), unread);
    }
  }

  /** Both connections read the same responses, errors and numbers, however the network slices the bytes and whenever
      requests are sent, unless one is overtaken; they differ in the raw bytes that the asyncio connection keeps. */
  lemma BothReadAlike(d: Dialect, out: Outstanding, b: bytes, events: seq<Event>, unread: bytes, ref: nat,
                      aio: seq<Response>, aioOut: Outstanding, aioEnding: Ending, left: bytes,
                      sync: seq<Response>, syncOut: Outstanding, syncEnding: Ending)
    requires DistinctSends(events) && !Overtaken(d, out, b, events)
    requires (forall r :: r in out ==> r <= ref) && (forall r :: r in SentIn(events) ==> ref < r)
    requires HandedOn(Serve(d, out, b, events), aio, aioOut, aioEnding, left) && (aioEnding.Failed? || unread == [])
    requires var t := Run(d, out + SentIn(events), b + (ChunksOf(events) + unread));
             sync == AllPlain(t.responses) && syncOut == t.outstanding && syncEnding == t.ending
    ensures sync == AllPlain(aio) && syncOut == aioOut && syncEnding == aioEnding
  {
    ServedAll(d, out, b, ref, events, unread, b + (ChunksOf(events) + unread), aio, aioOut, aioEnding, left);
  }

  class AioConnection {
    const dialect: Dialect
    const reader: ByteStream
    var buffer: AioReceiveBuffer
    var refNo: nat
    var outstanding: Outstanding

    constructor (dialect: Dialect, reader: ByteStream)
      requires reader.Valid()
      ensures Valid() && this.dialect == dialect && this.reader == reader && fresh(buffer)
      ensures refNo == 0 && outstanding == map[] && Stream() == reader.Pending()
    {
      this.dialect, this.reader := dialect, reader;
      buffer := new AioReceiveBuffer();
      refNo, outstanding := 0, map[];
    }

    ghost predicate Valid()
      reads this, buffer, reader
    {
      buffer.Valid() && reader.Valid() && forall r :: r in outstanding ==> 1 <= r <= refNo
    }

    ghost function Stream(): bytes
      requires Valid()
      reads this, buffer, reader
    {
      buffer.Current() + reader.Pending()
    }

    /** send_request, up to where it waits for the writer to drain. */
    method SendRequest(req: Request) returns (ref: nat)
      requires Valid()
      modifies this`refNo, this`outstanding, reader`sent
      ensures Valid() && Stream() == old(Stream())
      ensures ref == refNo == old(refNo) + 1
      ensures ref !in old(outstanding) && outstanding == old(outstanding)[ref := req.callNo]
      ensures reader.sent == old(reader.sent) + RequestLine(ref, req)
    {
      refNo := refNo + 1;
      ref := refNo;
      assert ref !in outstanding;
      outstanding := outstanding[ref := req.callNo];
      reader.sent := reader.sent + RequestLine(ref, req);
    }

    /** send_request with a request that is given as bytes.  `toInt` reads a number, as Python's int does, or raises an
        exception; the reference number is used up all the same. */
    method SendRaw(request: bytes, toInt: bytes -> Option<nat>) returns (ref: Option<nat>)
      requires Valid()
      modifies this`refNo, this`outstanding, reader`sent
      ensures Valid() && Stream() == old(Stream()) && refNo == old(refNo) + 1
      ensures match toInt(FirstWord(request))
              case None => ref == None && outstanding == old(outstanding) && reader.sent == old(reader.sent)
              case Some(callNo) =>
                && ref == Some(refNo) && refNo !in old(outstanding) && outstanding == old(outstanding)[refNo := callNo]
                && reader.sent == old(reader.sent) + RawLine(refNo, request)
    {
      refNo := refNo + 1;
      assert refNo !in outstanding;
      var requestString := RawLine(refNo, request);
      var callNo := toInt(FirstWord(request));
      if callNo.None? {
        return None;
      }
      outstanding := outstanding[refNo := callNo.value];
      reader.sent := reader.sent + requestString;
      return Some(refNo);
    }

    method ParseOk(src: Source) returns (r: Result<Response>)
      requires Valid() && src == Retry(buffer)
      modifies this`outstanding, buffer
      ensures Valid() && buffer == old(buffer)
      ensures match ParseOkReply(dialect, old(outstanding), old(buffer.Current()))
              case Ok((resp, out'), rest) => r == Done(resp) && outstanding == out' && buffer.Current() == rest
              case Bad(e, rest) => r == Raised(e) && outstanding == old(outstanding) && buffer.Current() == rest
              case More => r == Starved && outstanding == old(outstanding)
    {
      var ref :- ReadInt(src);
      if ref !in outstanding {
        return Raised(BadRequestId(ref));
      }
      var start := buffer.rbPos;
      var callNo := outstanding[ref];
      if callNo !in dialect.replies {
        return Raised(UnknownCall(callNo));
      }
      var reply :- ReadValue(dialect.replies[callNo], src);
      var replyBytes := buffer.rb[start..buffer.rbPos];
      TakenFromBuffer(buffer.rb, start, buffer.rbPos);
      outstanding := outstanding - {ref};
      return Done(Reply(ref, reply, replyBytes));
    }

    method ParseError(src: Source) returns (r: Result<Response>)
      requires Valid() && src == Retry(buffer)
      modifies this`outstanding, buffer
      ensures Valid() && buffer == old(buffer)
      ensures match ParseErrorReply(dialect, old(outstanding), old(buffer.Current()))
              case Ok((resp, out'), rest) => r == Done(resp) && outstanding == out' && buffer.Current() == rest
              case Bad(e, rest) => r == Raised(e) && outstanding == old(outstanding) && buffer.Current() == rest
              case More => r == Starved && outstanding == old(outstanding)
    {
      var ref :- ReadInt(src);
      if ref !in outstanding {
        return Raised(BadRequestId(ref));
      }
      var start := buffer.rbPos;
      var codes :- ReadIntPair(src);
      var (errorNo, errorStatus) := codes;
      if errorNo !in dialect.errors {
        return Raised(UnknownErrorNumber(errorNo));
      }
      var replyBytes := buffer.rb[start..buffer.rbPos];
      TakenFromBuffer(buffer.rb, start, buffer.rbPos);
      outstanding := outstanding - {ref};
      return Done(ErrorReply(ref, errorNo, errorStatus, replyBytes));
    }

    method ParseMsg(src: Source) returns (r: Result<Response>)
      requires Valid() && src == Retry(buffer)
      modifies buffer
      ensures Valid() && buffer == old(buffer)
      ensures match ParseMessage(dialect, old(outstanding), old(buffer.Current()))
              case Ok((resp, out'), rest) => r == Done(resp) && outstanding == out' && buffer.Current() == rest
              case Bad(e, rest) => r == Raised(e) && buffer.Current() == rest
              case More => r == Starved
    {
      var start := buffer.rbPos;
      var header :- ReadIntPair(src);
      var msgNo := header.1;
      if msgNo !in dialect.messages {
        return Raised(UnimplementedAsync(msgNo));
      }
      var msg :- ReadValue(dialect.messages[msgNo], src);
      var replyBytes := buffer.rb[start..buffer.rbPos];
      TakenFromBuffer(buffer.rb, start, buffer.rbPos);
      return Done(Message(msgNo, msg, replyBytes));
    }

    /** _parse_response, on the bytes the buffer holds. */
    method ParseBuffered() returns (r: Result<Response>)
      requires Valid()
      modifies this`outstanding, buffer
      ensures Valid() && buffer == old(buffer)
      ensures match ParseResponse(dialect, old(outstanding), old(buffer.Current()))
              case Ok((resp, out'), rest) => r == Done(Raw(resp)) && outstanding == out' && buffer.Current() == rest
              case Bad(e, rest) => r == Raised(e) && outstanding == old(outstanding) && buffer.Current() == rest
              case More => r == Starved && outstanding == old(outstanding)
    {
      var src := Retry(buffer);
      var ch :- ReadFirstNonWs(src);
      var resp;
      if ch == EQUALS {
        resp :- ParseOk(src);
      } else if ch == PERCENT {
        resp :- ParseError(src);
      } else if ch == COLON {
        resp :- ParseMsg(src);
      } else {
        return Raised(ProtocolError);
      }
      return Done(Raw(resp));
    }

    /** _try_parse_response: when the bytes run out, the copy of the buffer is restored. */
    method TryParseResponse() returns (r: Result<Response>)
      requires Valid()
      modifies this`outstanding, this`buffer, buffer
      ensures Valid() && (buffer == old(buffer) || fresh(buffer))
      ensures Reads(ParseResponse(dialect, old(outstanding), old(buffer.Current())), r,
                    old(outstanding), outstanding, old(buffer.Current()), buffer.Current())
    {
      ResponseAnswers(dialect, outstanding, buffer.Current());
      var bufferCopy := buffer.Copy();
      r := ParseBuffered();
      if r.Starved? {
        buffer := bufferCopy;
      }
    }

    /** The requests that were sent and the bytes that arrived, since the table was `out0`, the buffer held `b0` and the
        last number was `ref0`, while nothing could be parsed. */
    ghost predicate Reached(out0: Outstanding, b0: bytes, ref0: nat, events: seq<Event>)
      requires buffer.Valid()
      reads this, buffer
    {
      && outstanding == out0 + SentIn(events) && buffer.Current() == b0 + ChunksOf(events)
      && Fresh(ref0, refNo, events)
      && Starves(dialect, out0, b0, events)
    }

    /** Other tasks send requests while this one waits for bytes. */
    method SendOthers(reqs: seq<Request>, ghost out0: Outstanding, ghost b0: bytes, ghost ref0: nat,
                      ghost events: seq<Event>)
      returns (ghost events': seq<Event>)
      requires Valid() && ref0 <= refNo && Reached(out0, b0, ref0, events)
      requires ParseResponse(dialect, outstanding, buffer.Current()).More?
      modifies this`refNo, this`outstanding, reader`sent
      ensures Valid() && old(refNo) <= refNo && Reached(out0, b0, ref0, events')
      ensures ParseResponse(dialect, outstanding, buffer.Current()).More?
      ensures reader.Pending() == old(reader.Pending()) && ChunksOf(events') == ChunksOf(events)
    {
      events' := events;
      for i := 0 to |reqs|
        invariant Valid() && old(refNo) <= refNo && Reached(out0, b0, ref0, events')
        invariant ParseResponse(dialect, outstanding, buffer.Current()).More?
        invariant reader.Pending() == old(reader.Pending()) && ChunksOf(events') == ChunksOf(events)
      {
        ghost var out := outstanding;
        var ref := SendRequest(reqs[i]);
        ghost var e := Sent(ref, reqs[i].callNo);
        StillStarved(dialect, out, buffer.Current(), ref, reqs[i].callNo);
        SentOne(dialect, out0, b0, events', ref, reqs[i].callNo);
        events' := events' + [e];
      }
    }

    /** The suspended part of _read_response: other tasks send `reqs`, then bytes arrive, or the stream ends. */
    method AwaitBytes(reqs: seq<Request>, ghost out0: Outstanding, ghost b0: bytes, ghost ref0: nat,
                      ghost events: seq<Event>)
      returns (ended: bool, ghost events': seq<Event>)
      requires Valid() && ref0 <= refNo && Reached(out0, b0, ref0, events)
      requires ParseResponse(dialect, outstanding, buffer.Current()).More?
      modifies this`refNo, this`outstanding, buffer, reader
      ensures Valid() && old(refNo) <= refNo && Reached(out0, b0, ref0, events')
      ensures ChunksOf(events') + reader.Pending() == ChunksOf(events) + old(reader.Pending())
      ensures if ended then reader.Pending() == [] && ParseResponse(dialect, outstanding, buffer.Current()).More?
              else |reader.Pending()| < |old(reader.Pending())|
    {
      events' := SendOthers(reqs, out0, b0, ref0, events);
      var data := reader.Receive(1024);
      ended := |data| == 0;
      if !ended {
        buffer.Append(data);
        ArrivedOne(dialect, out0, b0, events', data);
        Regroup(ChunksOf(events'), data, reader.Pending());
        events' := events' + [Chunk(data)];
      }
    }

    /** _read_response, where `others` are the requests that other tasks send each time this one waits for bytes.  The
        outcome is that of parsing everything that arrived, and the whole stream, with the requests sent by then.  When
        the stream ends first, every byte of it is still in the buffer. */
    method ReadResponse(others: seq<seq<Request>>)
      returns (r: Result<Response>, ghost events: seq<Event>, left: seq<seq<Request>>)
      requires Valid()
      modifies this`refNo, this`outstanding, this`buffer, buffer, reader
      ensures Valid() && (buffer == old(buffer) || fresh(buffer)) && old(refNo) <= refNo
      ensures Fresh(old(refNo), refNo, events)
      ensures Starves(dialect, old(outstanding), old(buffer.Current()), events)
      ensures old(reader.Pending()) == ChunksOf(events) + reader.Pending()
      ensures var out, held := old(outstanding) + SentIn(events), old(buffer.Current()) + ChunksOf(events);
              Reads(ParseResponse(dialect, out, held), r, out, outstanding, held, buffer.Current())
      ensures var out := old(outstanding) + SentIn(events);
              Reads(ParseResponse(dialect, out, old(Stream())), r, out, outstanding, old(Stream()), Stream())
      ensures r.Starved? ==> reader.Pending() == []
      ensures !r.Starved? ==> |Stream()| < |old(Stream())|
    {
      events, left := [], others;
      ghost var out0, b0, ref0, pending0 := outstanding, buffer.Current(), refNo, reader.Pending();
      NothingYet(out0, b0);
      while true
        invariant Valid() && (buffer == old(buffer) || fresh(buffer)) && ref0 <= refNo
        invariant Reached(out0, b0, ref0, events)
        invariant pending0 == ChunksOf(events) + reader.Pending()
        decreases |reader.Pending()|
      {
        ghost var out, held, pending := outstanding, buffer.Current(), reader.Pending();
        r := TryParseResponse();
        if !r.Starved? {
          ReadsOn(dialect, out, held, pending, r, outstanding, buffer.Current());
          Regroup(b0, ChunksOf(events), pending);
          return;
        }
        var reqs := if left == [] then [] else left[0];
        left := if left == [] then [] else left[1..];
        var end;
        end, events := AwaitBytes(reqs, out0, b0, ref0, events);
        if end {
          ReadsOn(dialect, outstanding, buffer.Current(), [], r, outstanding, buffer.Current());
          Regroup(b0, ChunksOf(events), []);
          return;
        }
      }
    }

    /** The events since the receiver started, and the responses that it handed on. */
    ghost predicate Progress(out0: Outstanding, b0: bytes, ref0: nat, events: seq<Event>, seen: seq<Response>)
      requires buffer.Valid()
      reads this, buffer
    {
      && Fresh(ref0, refNo, events)
      && Serving(dialect, out0, b0, events, outstanding, buffer.Current(), seen)
    }

    /** One round of the receiver. */
    method ReceiveNext(others: seq<seq<Request>>, ghost out0: Outstanding, ghost b0: bytes, ghost ref0: nat,
                       ghost events: seq<Event>, ghost seen: seq<Response>)
      returns (r: Result<Response>, left: seq<seq<Request>>,
               ghost events': seq<Event>, ghost seen': seq<Response>, ghost ending: Ending)
      requires Valid() && ref0 <= refNo && Progress(out0, b0, ref0, events, seen)
      modifies this`refNo, this`outstanding, this`buffer, buffer, reader
      ensures Valid() && (buffer == old(buffer) || fresh(buffer)) && old(refNo) <= refNo
      ensures ChunksOf(events') + reader.Pending() == ChunksOf(events) + old(reader.Pending())
      ensures Fresh(ref0, refNo, events')
      ensures r.Done? ==>
                && Progress(out0, b0, ref0, events', seen') && AllRaw(seen') == AllRaw(seen) + [r.value]
                && |Stream()| < |old(Stream())|
      ensures !r.Done? ==>
                && HandedOn(Serve(dialect, out0, b0, events'), AllRaw(seen), outstanding, ending, buffer.Current())
                && (ending.Waiting? ==> reader.Pending() == [])
    {
      ghost var out, b := outstanding, buffer.Current();
      ghost var more;
      r, more, left := ReadResponse(others);
      seen', ending := Received(dialect, out0, b0, events, out, b, seen, more, r, outstanding, buffer.Current());
      MoreEvents(events, more, reader.Pending());
      events' := events + more;
    }

    /** _run_response_receiver: responses are handed on in the order of the stream until an exception ends it.  Unless
        one names a request before it is sent, they are those of the whole stream, read with all the requests. */
    method RunResponseReceiver(others: seq<seq<Request>>)
      returns (received: seq<Response>, ghost ending: Ending, ghost events: seq<Event>)
      requires Valid()
      modifies this`refNo, this`outstanding, this`buffer, buffer, reader
      ensures Valid() && Fresh(old(refNo), refNo, events)
      ensures old(reader.Pending()) == ChunksOf(events) + reader.Pending()
      ensures HandedOn(Serve(dialect, old(outstanding), old(buffer.Current()), events),
                       received, outstanding, ending, buffer.Current())
      ensures ending.Waiting? ==> reader.Pending() == []
      ensures !Overtaken(dialect, old(outstanding), old(buffer.Current()), events) ==>
                HandedOn(Run(dialect, old(outstanding) + SentIn(events), old(Stream())),
                         received, outstanding, ending, Stream())
    {
      received, events := [], [];
      var left := others;
      ghost var out0, b0, ref0, pending0 := outstanding, buffer.Current(), refNo, reader.Pending();
      ghost var seen: seq<Response> := [];
      AfterNothing(Run(dialect, out0, b0));
      while true
        invariant Valid() && (buffer == old(buffer) || fresh(buffer)) && ref0 <= refNo
        invariant Progress(out0, b0, ref0, events, seen)
        invariant pending0 == ChunksOf(events) + reader.Pending()
        invariant received == AllRaw(seen)
        decreases |Stream()|
      {
        var r;
        r, left, events, seen, ending := ReceiveNext(left, out0, b0, ref0, events, seen);
        if !r.Done? {
          ServedAll(dialect, out0, b0, ref0, events, reader.Pending(), old(Stream()),
                    received, outstanding, ending, buffer.Current());
          return;
        }
        received := received + [r.value];
      }
    }
  }
}
