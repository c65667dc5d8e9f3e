/** The three kinds of lines a server sends, byte for byte, and what the two connections make of them: with 61 (`=`) in
    front a reply, with 37 (`%`) an error reply, with 58 (`:`) a message; 32 between the parts and 10 at the end. */
module ServerLines {
  import opened Protocol
  import opened Options
  import opened Wire
  import opened Printer
  import opened ServerForm
  import opened Responses
  import Connections

  /** Behind one number and a space. */
  lemma NatThen(n: nat, after: bytes)
    ensures Nat(Decimal(n) + ([32] + after)) == Ok(n, after)
    ensures Nat(Decimal(n) + ([10] + after)) == Ok(n, after)
  {
    NatOfDecimal(n, [32] + after);
    NatOfDecimal(n, [10] + after);
    assert ([32] + after)[1..] == after && ([10] + after)[1..] == after;
  }

  lemma {:induction false} NatPairThen(m: nat, n: nat, after: bytes)
    ensures NatPair(Decimal(m) + ([32] + (Decimal(n) + ([32] + after)))) == Ok((m, n), after)
    ensures NatPair(Decimal(m) + ([32] + (Decimal(n) + ([10] + after)))) == Ok((m, n), after)
  {
    NatThen(m, Decimal(n) + ([32] + after));
    NatThen(m, Decimal(n) + ([10] + after));
    NatThen(n, after);
  }

  // ---------- Error replies ----------

  /** The bytes of an error reply behind the reference number. */
  function Codes(errorNo: nat, status: nat): bytes {
    Decimal(errorNo) + ([32] + Decimal(status))
  }

  lemma CodesTaken(errorNo: nat, status: nat, later: bytes)
    ensures var body := Decimal(errorNo) + ([32] + (Decimal(status) + ([10] + later)));
            |later| <= |body| && Taken(body, later) == Codes(errorNo, status) + [10]
  {
    var body := Decimal(errorNo) + ([32] + (Decimal(status) + ([10] + later)));
    assert body == (Codes(errorNo, status) + [10]) + later;
  }

  /** An error reply names the request, then the error, then its status.  It is refused if no such request is
      outstanding, or there is no such error; otherwise exactly that request is done with. */
  lemma {:induction false} ErrorReplyRead(d: Dialect, out: Outstanding, ref: nat, errorNo: nat, status: nat,
                                          later: bytes)
    ensures var codes := Decimal(errorNo) + ([32] + (Decimal(status) + ([10] + later)));
            ParseResponse(d, out, [37] + (Decimal(ref) + ([32] + codes))) ==
            if ref !in out then Bad(BadRequestId(ref), codes)
            else if errorNo !in d.errors then Bad(UnknownErrorNumber(errorNo), later)
            else Ok((ErrorReply(ref, errorNo, status, Codes(errorNo, status) + [10]), out - {ref}), later)
  {
    var codes := Decimal(errorNo) + ([32] + (Decimal(status) + ([10] + later)));
    FirstIs(37, Decimal(ref) + ([32] + codes));
    NatThen(ref, codes);
    NatPairThen(errorNo, status, later);
    CodesTaken(errorNo, status, later);
  }

  // ---------- Messages ----------

  /** What of a line is left when the value at its end has been read. */
  lemma {:induction false} BodyRead(t: WireType, v: Value, later: bytes)
    requires Writable(v, OnWire(t)) && v != Fields([]) && PrintableType(OnWire(t))
    ensures var rest := if Swallows(v) then later else [10] + later;
            Follows(Parse(t, Print(v) + ([10] + later)), Ok(AsSent(v), rest), Received(t, AsSent(v)))
  {
    ServerRoundTrip(t, v, [NEWLINE] + later);
    assert ([NEWLINE] + later)[1..] == later;
  }

  lemma TakenFront(front: bytes, rest: bytes)
    ensures Taken(front + rest, rest) == front
  {
  }

  /** What is taken of a message are its two numbers and what is taken behind them. */
  lemma {:induction false} MessageTaken(n: nat, msgNo: nat, body: bytes, rest: bytes)
    ensures var front := Decimal(n) + ([32] + (Decimal(msgNo) + body));
            front + rest == Decimal(n) + ([32] + (Decimal(msgNo) + (body + rest))) && Taken(front + rest, rest) == front
  {
    TakenFront(Decimal(n) + ([32] + (Decimal(msgNo) + body)), rest);
    Regroup(Decimal(msgNo), body, rest);
    Regroup([32], Decimal(msgNo) + body, rest);
    Regroup(Decimal(n), [32] + (Decimal(msgNo) + body), rest);
  }

  lemma BodyTaken(printed: bytes, swallows: bool, later: bytes)
    ensures var last, rest := if swallows then [10] else [], if swallows then later else [10] + later;
            ([32] + (printed + last)) + rest == [32] + (printed + ([10] + later))
  {
  }

  /** Behind the two numbers, the arguments decide. */
  lemma {:induction false} MessageParsed(d: Dialect, out: Outstanding, n: nat, msgNo: nat, body: bytes)
    requires msgNo in d.messages
    ensures var b := Decimal(n) + ([32] + (Decimal(msgNo) + ([32] + body)));
            var p := Parse(d.messages[msgNo], body);
            && (p.Ok? ==> |p.rest| <= |b| &&
                          ParseResponse(d, out, [58] + b) ==
                          Ok((Message(msgNo, p.value, Taken(b, p.rest)), out), p.rest))
            && (p.Bad? ==> ParseResponse(d, out, [58] + b) == Bad(p.error, p.rest))
  {
    FirstIs(58, Decimal(n) + ([32] + (Decimal(msgNo) + ([32] + body))));
    NatPairThen(n, msgNo, body);
  }

  /** A message says how many arguments it has, which nobody looks at, then which message it is, then the arguments, at
      the type of that message.  No request is touched. */
  lemma {:induction false} MessageRead(d: Dialect, out: Outstanding, n: nat, msgNo: nat, v: Value, later: bytes)
    requires msgNo in d.messages && v != Fields([])
    requires var t := OnWire(d.messages[msgNo]); Writable(v, t) && PrintableType(t)
    ensures var received := Received(d.messages[msgNo], AsSent(v));
            var payload :=
              Decimal(n) + ([32] + (Decimal(msgNo) + ([32] + (Print(v) + if Swallows(v) then [10] else []))));
            Follows(ParseResponse(d, out, [58] + (Decimal(n) + ([32] + (Decimal(msgNo) + ([32] +
                                            (Print(v) + ([10] + later))))))),
                    Ok(AsSent(v), if Swallows(v) then later else [10] + later),
                    if received.None? then None else Some((Message(msgNo, received.value, payload), out)))
  {
    var body := Print(v) + ([10] + later);
    var last, rest := if Swallows(v) then [10] else [], if Swallows(v) then later else [10] + later;
    MessageParsed(d, out, n, msgNo, body);
    BodyRead(d.messages[msgNo], v, later);
    BodyTaken(Print(v), Swallows(v), later);
    MessageTaken(n, msgNo, [32] + (Print(v) + last), rest);
  }

  /** A message without arguments ends with its number. */
  lemma {:induction false} EmptyMessageRead(d: Dialect, out: Outstanding, n: nat, msgNo: nat, later: bytes)
    requires msgNo in d.messages && Writable(Fields([]), OnWire(d.messages[msgNo]))
    ensures var received := Received(d.messages[msgNo], Fields([]));
            var payload := Decimal(n) + ([32] + (Decimal(msgNo) + [10]));
            Follows(ParseResponse(d, out, [58] + (Decimal(n) + ([32] + (Decimal(msgNo) + ([10] + later))))),
                    Ok(Fields([]), later),
                    if received.None? then None else Some((Message(msgNo, received.value, payload), out)))
  {
    var b := Decimal(n) + ([32] + (Decimal(msgNo) + ([10] + later)));
    FirstIs(58, b);
    NatPairThen(n, msgNo, later);
    EmptyReceives(d.messages[msgNo], later);
    MessageTaken(n, msgNo, [10], later);
  }

  /** A message that nobody knows is refused by its number. */
  lemma {:induction false} MessageRefused(d: Dialect, out: Outstanding, n: nat, msgNo: nat, later: bytes)
    requires msgNo !in d.messages
    ensures ParseResponse(d, out, [58] + (Decimal(n) + ([32] + (Decimal(msgNo) + ([32] + later))))) ==
            Bad(UnimplementedAsync(msgNo), later)
  {
    FirstIs(58, Decimal(n) + ([32] + (Decimal(msgNo) + ([32] + later))));
    NatPairThen(n, msgNo, later);
  }

  // ---------- Replies ----------

  /** A reply is refused if no such request is outstanding, or its call has no reply type. */
  lemma {:induction false} ReplyRefused(d: Dialect, out: Outstanding, ref: nat, later: bytes)
    ensures var p := ParseResponse(d, out, [61] + (Decimal(ref) + ([32] + later)));
            && (ref !in out ==> p == Bad(BadRequestId(ref), later))
            && (ref in out && out[ref] !in d.replies ==> p == Bad(UnknownCall(out[ref]), later))
  {
    FirstIs(61, Decimal(ref) + ([32] + later));
    NatThen(ref, later);
  }

  /** Any other first byte is refused. */
  lemma OtherLineRefused(d: Dialect, out: Outstanding, c: byte, later: bytes)
    requires c !in {61, 37, 58} && !IsSpace(c)
    ensures ParseResponse(d, out, [c] + later) == Bad(ProtocolError, later)
  {
    FirstIs(c, later);
  }

  // ---------- What the connections hand on ----------

  /** The blocking connection hands on replies, errors and messages without their bytes. */
  lemma HandedOnPlain(ref: nat, v: Value, errorNo: nat, status: nat, payload: bytes)
    ensures Connections.Plain(Reply(ref, v, payload)) == Reply(ref, v, [])
    ensures Connections.Plain(ErrorReply(ref, errorNo, status, payload)) == ErrorReply(ref, errorNo, status, [])
    ensures Connections.Plain(Message(ref, v, payload)) == Message(ref, v, [])
  {
  }

  /** The asyncio connection hands on an error reply with exactly its text. */
  lemma {:induction false} ErrorReplyIsExact(d: Dialect, out: Outstanding, ref: nat, errorNo: nat, status: nat,
                                             later: bytes)
    requires ref in out && errorNo in d.errors
    ensures var p := ParseResponse(d, out, [37] + (Decimal(ref) + ([32] +
                       (Decimal(errorNo) + ([32] + (Decimal(status) + ([10] + later)))))));
            p.Ok? && Connections.Raw(p.value.0) ==
                     ErrorReply(ref, errorNo, status, Decimal(errorNo) + ([32] + Decimal(status)))
  {
    ErrorReplyRead(d, out, ref, errorNo, status, later);
    assert DropLast(Codes(errorNo, status) + [10]) == Codes(errorNo, status);
  }

  /** It hands on a reply with its value as received, and with exactly its text if it is empty or its last value
      swallows the newline; otherwise without the last byte of its text. */
  lemma ReplyHandedOn(d: Dialect, out: Outstanding, ref: nat, v: Value, later: bytes)
    requires ref in out && out[ref] in d.replies
    requires var t := d.replies[out[ref]];
             Writable(v, OnWire(t)) && (v == Fields([]) || PrintableType(OnWire(t))) && Received(t, AsSent(v)).Some?
    ensures v == Fields([]) || Print(v) != []
    ensures var p := ParseResponse(d, out, ReplyLine(ref, v, later));
            var text := Print(v);
            p.Ok? && Connections.Raw(p.value.0) ==
                     Reply(ref, Received(d.replies[out[ref]], AsSent(v)).value,
                           if v == Fields([]) || Swallows(v) then text else text[..|text| - 1])
  {
    ReplyRoundTrip(d, out, ref, v, later);
    if v != Fields([]) {
      PrintNonEmpty(OnWire(d.replies[out[ref]]), v);
      assert DropLast(Print(v) + [NEWLINE]) == Print(v);
    }
  }
}
