/** Requests as lines of bytes, and how a server reads them back. */
module Requests {
  import opened Protocol
  import opened Options
  import opened Wire
  import opened Printer

  datatype Request = Request(callNo: nat, args: seq<Value>)

  /** Request.to_string: the call number and the arguments, separated by spaces, and a newline. */
  function RequestBytes(req: Request): bytes {
    Join([Number(req.callNo)] + req.args) + [NEWLINE]
  }

  /** The line that is sent: the reference number comes first. */
  function RequestLine(refNo: nat, req: Request): bytes {
    Decimal(refNo) + [SPACE] + RequestBytes(req)
  }

  // ---------- Requests given as bytes ----------

  /** request.split(b" ")[0] */
  function FirstWord(b: bytes): bytes {
    if b == [] || b[0] == SPACE then [] else [b[0]] + FirstWord(b[1..])
  }

  /** The line that is sent for a request that was given as bytes. */
  function RawLine(refNo: nat, request: bytes): bytes {
    Decimal(refNo) + [SPACE] + request + [NEWLINE]
  }

  lemma {:induction false} FirstWordOfDigits(digits: bytes, rest: bytes)
    requires forall i :: 0 <= i < |digits| ==> IsDigit(digits[i])
    requires rest == [] || rest[0] == SPACE
    ensures FirstWord(digits + rest) == digits
  {
    if digits == [] {
      assert digits + rest == rest;
    } else {
      FirstWordOfDigits(digits[1..], rest);
      assert (digits + rest)[1..] == digits[1..] + rest;
    }
  }

  lemma {:induction false} DecimalIsDigits(n: nat)
    ensures forall i :: 0 <= i < |Decimal(n)| ==> IsDigit(Decimal(n)[i])
  {
    if n >= 10 {
      DecimalIsDigits(n / 10);
    }
  }

  /** A request given as its own bytes goes out as the same line, and its first word is its call number. */
  lemma RawRequestIsRequest(refNo: nat, req: Request)
    ensures var raw := Join([Number(req.callNo)] + req.args);
            RawLine(refNo, raw) == RequestLine(refNo, req) && FirstWord(raw) == Decimal(req.callNo)
  {
    var values := [Number(req.callNo)] + req.args;
    var digits := Decimal(req.callNo);
    DecimalIsDigits(req.callNo);
    assert Print(values[0]) == digits;
    if req.args == [] {
      assert Join(values) == digits + [];
      FirstWordOfDigits(digits, []);
    } else {
      assert values[1..] == req.args;
      Regroup(digits, [SPACE], Join(req.args));
      FirstWordOfDigits(digits, [SPACE] + Join(req.args));
    }
    Regroup(Decimal(refNo) + [SPACE], Join(values), [NEWLINE]);
  }

  // ---------- How a server reads a request ----------

  /** CALL_NO and ARGS of the request classes: the argument types by call number. */
  type Signatures = map<nat, seq<WireType>>

  datatype Decoded = Decoded(refNo: nat, callNo: nat, args: seq<Value>)

  /** Reading a request: reference number, call number, then each argument at its declared type. */
  function Decode(signatures: Signatures, b: bytes): Parsed<Decoded> {
    var (refNo, r) :- Nat(b);
    var (callNo, r') :- Nat(r);
    if callNo !in signatures then Bad(UnknownCall(callNo), r')
    else
      var (args, r'') :- ParseFields(signatures[callNo], r');
      Ok(Decoded(refNo, callNo, args), r'')
  }

  ghost predicate WellFormed(signatures: Signatures, req: Request) {
    && req.callNo in signatures
    && HaveTypes(req.args, signatures[req.callNo])
    && (forall i :: 0 <= i < |signatures[req.callNo]| ==> PrintableType(signatures[req.callNo][i]))
  }

  /** The last value of the line decides what is left of the newline. */
  function Unread(req: Request, later: bytes): bytes {
    if req.args == [] || Swallows(req.args[|req.args| - 1]) then later else [NEWLINE] + later
  }

  /** Behind the call number: the arguments, or nothing but the swallowed newline. */
  lemma {:induction false} DecodeArgs(ts: seq<WireType>, args: seq<Value>, after: bytes)
    requires args != [] && HaveTypes(args, ts)
    requires after != [] && IsSpace(after[0])
    requires forall i :: 0 <= i < |ts| ==> PrintableType(ts[i])
    ensures ParseFields(ts, Join(args) + after) == Ok(AllAsSent(args), Rest(args[|args| - 1], after))
  {
    AllTypedAreWritable(args, ts);
    FieldsRoundTrip(ts, args, [], after);
    assert [] + (Join(args) + after) == Join(args) + after;
  }

  lemma LineLayout(refNo: nat, req: Request, later: bytes)
    ensures var after := [NEWLINE] + later;
            RequestLine(refNo, req) + later ==
            Decimal(refNo) + ([SPACE] + (Decimal(req.callNo) +
              (if req.args == [] then after else [SPACE] + (Join(req.args) + after))))
  {
    var line, after := [Number(req.callNo)] + req.args, [NEWLINE] + later;
    var call := Decimal(req.callNo);
    var body := Join(line) + after;
    assert RequestLine(refNo, req) + later == Decimal(refNo) + ([SPACE] + body);
    assert Print(line[0]) == call;
    if req.args == [] {
      assert Join(line) == call;
    } else {
      assert line[1..] == req.args;
      assert Join(line) == call + [SPACE] + Join(req.args);
      assert body == call + ([SPACE] + (Join(req.args) + after));
    }
  }

  /** A request line decodes to its reference number, its call number and its arguments, and is consumed up to
      the newline. */
  lemma RequestDecodes(signatures: Signatures, refNo: nat, req: Request, later: bytes)
    requires WellFormed(signatures, req)
    ensures Decode(signatures, RequestLine(refNo, req) + later) ==
            Ok(Decoded(refNo, req.callNo, AllAsSent(req.args)), Unread(req, later))
  {
    var ts, after := signatures[req.callNo], [NEWLINE] + later;
    var args := if req.args == [] then after else [SPACE] + (Join(req.args) + after);
    var call := [SPACE] + (Decimal(req.callNo) + args);
    LineLayout(refNo, req, later);
    NatOfDecimal(refNo, call);
    assert call[1..] == Decimal(req.callNo) + args;
    NatOfDecimal(req.callNo, args);
    assert after[1..] == later;
    if req.args != [] {
      assert args[1..] == Join(req.args) + after;
      DecodeArgs(ts, req.args, after);
    }
  }

  /** Two requests whose lines open the same stream are the same request, as far as the server is told. */
  lemma RequestLinesAreUnique(signatures: Signatures, n: nat, a: Request, restA: bytes, m: nat, b: Request,
                              restB: bytes)
    requires WellFormed(signatures, a) && WellFormed(signatures, b)
    requires RequestLine(n, a) + restA == RequestLine(m, b) + restB
    ensures n == m && a.callNo == b.callNo && AllAsSent(a.args) == AllAsSent(b.args)
    ensures Unread(a, restA) == Unread(b, restB)
  {
    RequestDecodes(signatures, n, a, restA);
    RequestDecodes(signatures, m, b, restB);
  }

  // ---------- Building the argument list ----------

  /** An argument with its data type, whose constructor converts a value or raises an exception. */
  datatype Argument = Argument(name: string, dataType: Value -> Option<Value>, default: Option<Value>)

  datatype Built =
    | Args(values: seq<Value>, serialized: seq<bytes>)
    | TooMany
    | GivenTwice(name: string)
    | Missing(name: string)
    | InvalidName(name: string)
    | BadValue(name: string)

  /** The value that argument i gets: by position, else by name, else by default. */
  function ArgumentValue(defs: seq<Argument>, args: seq<Value>, kwargs: map<string, Value>, i: nat): Option<Value>
    requires i < |defs|
  {
    if i < |args| then Some(args[i])
    else if defs[i].name in kwargs then Some(kwargs[defs[i].name])
    else defs[i].default
  }

  /** That value as its data type has it. */
  function ConvertedValue(defs: seq<Argument>, args: seq<Value>, kwargs: map<string, Value>, i: nat): Option<Value>
    requires i < |defs|
  {
    var val := ArgumentValue(defs, args, kwargs, i);
    if val.None? then None else defs[i].dataType(val.value)
  }

  /** The attributes of the request in front of argument i: those it has from the start, and one for each argument. */
  function Attributes(defs: seq<Argument>, attributes: set<string>, i: nat): set<string>
    requires i <= |defs|
  {
    if i == 0 then attributes else Attributes(defs, attributes, i - 1) + {defs[i - 1].name}
  }

  predicate NameTaken(defs: seq<Argument>, attributes: set<string>, i: nat)
    requires i < |defs|
  {
    defs[i].name in Attributes(defs, attributes, i)
  }

  predicate Twice(defs: seq<Argument>, args: seq<Value>, kwargs: map<string, Value>, i: nat)
    requires i < |defs|
  {
    i < |args| && defs[i].name in kwargs
  }

  predicate Conflict(defs: seq<Argument>, attributes: set<string>, args: seq<Value>, kwargs: map<string, Value>, i: nat)
    requires i < |defs|
  {
    Twice(defs, args, kwargs, i) || ConvertedValue(defs, args, kwargs, i).None? || NameTaken(defs, attributes, i)
  }

  ghost predicate FirstConflict(defs: seq<Argument>, attributes: set<string>,
                                args: seq<Value>, kwargs: map<string, Value>, i: nat)
  {
    && i < |defs| && Conflict(defs, attributes, args, kwargs, i)
    && forall j: nat :: j < i ==> !Conflict(defs, attributes, args, kwargs, j)
  }

  /** The exception that argument i raises. */
  function Complaint(defs: seq<Argument>, attributes: set<string>,
                     args: seq<Value>, kwargs: map<string, Value>, i: nat): Built
    requires i < |defs|
  {
    if Twice(defs, args, kwargs, i) then GivenTwice(defs[i].name)
    else if ArgumentValue(defs, args, kwargs, i).None? then Missing(defs[i].name)
    else if NameTaken(defs, attributes, i) then InvalidName(defs[i].name)
    else BadValue(defs[i].name)
  }

  lemma {:induction false} AttributesAre(defs: seq<Argument>, attributes: set<string>, i: nat, name: string)
    requires i <= |defs|
    ensures name in Attributes(defs, attributes, i) <==>
            name in attributes || exists j :: 0 <= j < i && defs[j].name == name
    decreases i
  {
    if i > 0 {
      AttributesAre(defs, attributes, i - 1, name);
    }
  }

  /** The value of an argument: by position, and then not by name as well; else by name; else its default. */
  lemma ArgumentGets(defs: seq<Argument>, args: seq<Value>, kwargs: map<string, Value>, i: nat)
    requires i < |defs|
    ensures i < |args| ==> ConvertedValue(defs, args, kwargs, i) == defs[i].dataType(args[i])
    ensures i >= |args| && defs[i].name in kwargs ==>
              ConvertedValue(defs, args, kwargs, i) == defs[i].dataType(kwargs[defs[i].name])
    ensures i >= |args| && defs[i].name !in kwargs ==>
              ConvertedValue(defs, args, kwargs, i) ==
              if defs[i].default.None? then None else defs[i].dataType(defs[i].default.value)
  {
  }

  /** What is wrong with an argument, and what is raised for it: it is given twice, or not at all, or its name is taken,
      or its data type does not accept the value. */
  lemma ConflictsAre(defs: seq<Argument>, attributes: set<string>, args: seq<Value>, kwargs: map<string, Value>, i: nat)
    requires i < |defs|
    ensures var name := defs[i].name;
            var twice := i < |args| && name in kwargs;
            var missing := i >= |args| && name !in kwargs && defs[i].default.None?;
            var taken := name in attributes || exists j :: 0 <= j < i && defs[j].name == name;
            && (Conflict(defs, attributes, args, kwargs, i) <==>
                  twice || missing || taken || ConvertedValue(defs, args, kwargs, i).None?)
            && Complaint(defs, attributes, args, kwargs, i) ==
               if twice then GivenTwice(name) else if missing then Missing(name)
               else if taken then InvalidName(name) else BadValue(name)
  {
    AttributesAre(defs, attributes, i, defs[i].name);
  }

  /** One turn of the loop: argument i alone. */
  method BuildArg(defs: seq<Argument>, attributes: set<string>, args: seq<Value>, kwargs: map<string, Value>,
                  i: nat, names: set<string>)
    returns (one: Built)
    requires i < |defs| && names == Attributes(defs, attributes, i)
    ensures one.Args? <==> !Conflict(defs, attributes, args, kwargs, i)
    ensures one.Args? ==>
              |one.values| == 1 && Some(one.values[0]) == ConvertedValue(defs, args, kwargs, i) &&
              one.serialized == [Print(one.values[0])]
    ensures !one.Args? ==> one == Complaint(defs, attributes, args, kwargs, i)
  {
    var val;
    if i < |args| {
      val := args[i];
      if defs[i].name in kwargs {
        return GivenTwice(defs[i].name);
      }
    } else if defs[i].name in kwargs {
      val := kwargs[defs[i].name];
    } else if defs[i].default.None? {
      return Missing(defs[i].name);
    } else {
      val := defs[i].default.value;
    }
    if defs[i].name in names {
      return InvalidName(defs[i].name);
    }
    var arg := defs[i].dataType(val);
    if arg.None? {
      return BadValue(defs[i].name);
    }
    return Args([arg.value], [Print(arg.value)]);
  }

  /** The loop of Request.__init__, with the attributes that every request has. */
  method BuildArgs(defs: seq<Argument>, attributes: set<string>, args: seq<Value>, kwargs: map<string, Value>)
    returns (built: Built)
    ensures built.TooMany? <==> |defs| < |args| + |kwargs|
    ensures built.Args? <==>
              !built.TooMany? && forall i: nat :: i < |defs| ==> !Conflict(defs, attributes, args, kwargs, i)
    ensures built.Args? ==>
              && |built.values| == |built.serialized| == |defs|
              && forall i: nat :: i < |defs| ==>
                   && Some(built.values[i]) == ConvertedValue(defs, args, kwargs, i)
                   && built.serialized[i] == Print(built.values[i])
    ensures !built.Args? && !built.TooMany? ==>
              exists i: nat :: FirstConflict(defs, attributes, args, kwargs, i) &&
                               built == Complaint(defs, attributes, args, kwargs, i)
  {
    if |args| + |kwargs| > |defs| {
      return TooMany;
    }
    var values: seq<Value>, serialized: seq<bytes> := [], [];
    var names := attributes;
    for i := 0 to |defs|
      invariant |values| == |serialized| == i
      invariant names == Attributes(defs, attributes, i)
      invariant forall j: nat :: j < i ==> !Conflict(defs, attributes, args, kwargs, j)
      invariant forall j: nat :: j < i ==>
                  Some(values[j]) == ConvertedValue(defs, args, kwargs, j) && serialized[j] == Print(values[j])
    {
      var one := BuildArg(defs, attributes, args, kwargs, i, names);
      if !one.Args? {
        assert FirstConflict(defs, attributes, args, kwargs, i);
        return one;
      }
      names := names + {defs[i].name};
      values := values + one.values;
      serialized := serialized + one.serialized;
    }
    return Args(values, serialized);
  }

  /** b" ".join(...) of strings */
  function JoinBytes(strings: seq<bytes>): bytes {
    if strings == [] then []
    else if |strings| == 1 then strings[0]
    else strings[0] + [SPACE] + JoinBytes(strings[1..])
  }

  /** to_string joins what __init__ serialized: the same bytes as printing the arguments. */
  lemma {:induction false} SerializedJoin(values: seq<Value>, serialized: seq<bytes>)
    requires |values| == |serialized| && forall i :: 0 <= i < |values| ==> serialized[i] == Print(values[i])
    ensures JoinBytes(serialized) == Join(values)
  {
    if |values| > 1 {
      SerializedJoin(values[1..], serialized[1..]);
    }
  }

  lemma BuiltRequestBytes(callNo: nat, values: seq<Value>, serialized: seq<bytes>)
    requires |values| == |serialized| && forall i :: 0 <= i < |values| ==> serialized[i] == Print(values[i])
    ensures RequestBytes(Request(callNo, values)) == JoinBytes([Decimal(callNo)] + serialized) + [NEWLINE]
  {
    SerializedJoin([Number(callNo)] + values, [Decimal(callNo)] + serialized);
  }
}
