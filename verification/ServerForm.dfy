/** Values as the server writes them, and what the client makes of them.

    The server knows neither cooked misc-infos nor dictionaries: where the client converts a value, the unconverted one
    is on the wire. */
module ServerForm {
  import opened Protocol
  import opened MiscInfo
  import opened Options
  import opened Wire
  import opened Printer

  /** What is on the wire where the client reads a `t`. */
  function OnWire(t: WireType): WireType
    decreases t, 0
  {
    match t
    case Array(elem) => Array(OnWire(elem))
    case Record(fields) => Record(AllOnWire(fields))
    case Tagged(arms) => Tagged(ArmsOnWire(arms))
    case Converted(inner, _) => OnWire(inner)
    case _ => t
  }

  function AllOnWire(ts: seq<WireType>): (r: seq<WireType>)
    ensures |r| == |ts|
    decreases ts, 1
  {
    if ts == [] then [] else [OnWire(ts[0])] + AllOnWire(ts[1..])
  }

  function ArmsOnWire(arms: Arms): Arms
    decreases arms, 1
  {
    match arms
    case Reject => Reject
    case Otherwise(t) => Otherwise(OnWire(t))
    case Arm(tags, t, more) => Arm(tags, OnWire(t), ArmsOnWire(more))
  }

  /** What the client makes of a value on the wire; None where a conversion rejects it. */
  function Received(t: WireType, v: Value): Option<Value>
    decreases t, 0
  {
    match t
    case Array(elem) =>
      if !v.Items? then None
      else
        var elems := ReceivedElems(elem, v.elems);
        if elems.None? then None else Some(Items(elems.value))
    case Record(fields) =>
      if !v.Fields? then None
      else
        var parts := ReceivedFields(fields, v.parts);
        if parts.None? then None else Some(Fields(parts.value))
    case Tagged(arms) =>
      if !v.Variant? then None
      else
        var payload := ReceivedArm(arms, v.tag, v.payload);
        if payload.None? then None else Some(Variant(v.tag, payload.value))
    case Converted(inner, conversion) =>
      var w := Received(inner, v);
      if w.None? then None else Convert(conversion, w.value)
    case _ => Some(v)
  }

  function Prepend(first: Option<Value>, more: Option<seq<Value>>): Option<seq<Value>> {
    if first.None? || more.None? then None else Some([first.value] + more.value)
  }

  function ReceivedElems(t: WireType, vs: seq<Value>): Option<seq<Value>>
    decreases t, 1, |vs|
  {
    if vs == [] then Some([]) else Prepend(Received(t, vs[0]), ReceivedElems(t, vs[1..]))
  }

  function ReceivedFields(ts: seq<WireType>, vs: seq<Value>): Option<seq<Value>>
    decreases ts, 1
  {
    if ts == [] || vs == [] then if ts == [] && vs == [] then Some([]) else None
    else Prepend(Received(ts[0], vs[0]), ReceivedFields(ts[1..], vs[1..]))
  }

  function ReceivedArm(arms: Arms, tag: nat, v: Value): Option<Value>
    decreases arms, 1
  {
    match arms
    case Reject => None
    case Otherwise(t) => Received(t, v)
    case Arm(tags, t, more) => if tag in tags then Received(t, v) else ReceivedArm(more, tag, v)
  }

  lemma {:induction false} AllOnWireAt(ts: seq<WireType>, i: nat)
    requires i < |ts|
    ensures AllOnWire(ts)[i] == OnWire(ts[i])
  {
    if i > 0 {
      AllOnWireAt(ts[1..], i - 1);
    }
  }

  // ---------- Reading what was written ----------

  /** `p` is what the client gets where the wire holds `w`: what was received, or an error if that is rejected. */
  ghost predicate Follows<T, U>(p: Parsed<U>, w: Parsed<T>, received: Option<U>) {
    w.Ok? ==> if received.Some? then p == Ok(received.value, w.rest) else p.Bad?
  }

  /** Parsing is parsing what is on the wire and converting it. */
  lemma {:induction false} ParseReceives(t: WireType, b: bytes)
    ensures var w := Parse(OnWire(t), b); w.Ok? ==> Follows(Parse(t, b), w, Received(t, w.value))
    decreases t, 0
  {
    match t
    case Natural =>
    case Hollerith =>
    case Bits(_) =>
    case Array(elem) => ParseArrayReceives(elem, b);
    case Record(fields) => ParseFieldsReceives(fields, b);
    case Tagged(arms) =>
      var tag := Nat(b);
      if tag.Ok? {
        ParseArmReceives(arms, tag.value, tag.rest);
      }
    case Converted(inner, _) => ParseReceives(inner, b);
  }

  ghost predicate ArrayFollows(elem: WireType, b: bytes) {
    var w := Parse(Array(OnWire(elem)), b);
    w.Ok? ==> Follows(Parse(Array(elem), b), w, Received(Array(elem), w.value))
  }

  lemma StarFollows(elem: WireType, b: bytes, r: bytes)
    requires Nat(b).Ok? && FirstNonSpace(Nat(b).rest) == Ok(STAR, r)
    ensures ArrayFollows(elem, b)
  {
    assert ReceivedElems(elem, []) == Some([]);
    assert Received(Array(elem), Items([])) == Some(Items([]));
  }

  lemma BracesFollow(elem: WireType, b: bytes, r: bytes)
    requires Nat(b).Ok? && FirstNonSpace(Nat(b).rest) == Ok(OPEN_BRACE, r) && ElemsFollow(elem, Nat(b).value, r)
    ensures ArrayFollows(elem, b)
  {
    var ws := ParseElems(OnWire(elem), Nat(b).value, r);
    if ws.Ok? {
      var received := ReceivedElems(elem, ws.value);
      assert Received(Array(elem), Items(ws.value)) == if received.None? then None else Some(Items(received.value));
    }
  }

  lemma {:induction false} ParseArrayReceives(elem: WireType, b: bytes)
    ensures ArrayFollows(elem, b)
    decreases elem, 2
  {
    var length := Nat(b);
    if length.Ok? {
      var left := FirstNonSpace(length.rest);
      if left.Ok? && left.value == STAR {
        StarFollows(elem, b, left.rest);
      } else if left.Ok? && left.value == OPEN_BRACE {
        ParseElemsReceives(elem, length.value, left.rest);
        BracesFollow(elem, b, left.rest);
      }
    }
  }

  lemma ReceivedElemsCons(t: WireType, v: Value, vs: seq<Value>)
    ensures ReceivedElems(t, [v] + vs) == Prepend(Received(t, v), ReceivedElems(t, vs))
  {
    assert ([v] + vs)[1..] == vs;
  }

  ghost predicate ElemsFollow(t: WireType, n: nat, b: bytes) {
    var w := ParseElems(OnWire(t), n, b);
    w.Ok? ==> Follows(ParseElems(t, n, b), w, ReceivedElems(t, w.value))
  }

  lemma FirstElemFollows(t: WireType, n: nat, b: bytes, w: Parsed<Value>)
    requires n > 0 && w == Parse(OnWire(t), b) && w.Ok?
    requires Follows(Parse(t, b), w, Received(t, w.value)) && ElemsFollow(t, n - 1, w.rest)
    ensures ElemsFollow(t, n, b)
  {
    var ws := ParseElems(OnWire(t), n - 1, w.rest);
    if ws.Ok? {
      ReceivedElemsCons(t, w.value, ws.value);
    }
  }

  lemma {:induction false} ParseElemsReceives(t: WireType, n: nat, b: bytes)
    ensures ElemsFollow(t, n, b)
    decreases t, 1, n
  {
    if n > 0 {
      var w := Parse(OnWire(t), b);
      if w.Ok? {
        ParseReceives(t, b);
        ParseElemsReceives(t, n - 1, w.rest);
        FirstElemFollows(t, n, b, w);
      }
    }
  }

  lemma {:induction false} ParseFieldsReceives(ts: seq<WireType>, b: bytes)
    ensures var w := ParseFields(AllOnWire(ts), b);
            w.Ok? ==> Follows(ParseFields(ts, b), w, ReceivedFields(ts, w.value))
    decreases ts, 1
  {
    if ts != [] {
      assert AllOnWire(ts)[1..] == AllOnWire(ts[1..]);
      ParseReceives(ts[0], b);
      var w := Parse(OnWire(ts[0]), b);
      if w.Ok? {
        ParseFieldsReceives(ts[1..], w.rest);
        var ws := ParseFields(AllOnWire(ts[1..]), w.rest);
        if ws.Ok? {
          assert ([w.value] + ws.value)[1..] == ws.value;
        }
      }
    }
  }

  lemma {:induction false} ParseArmReceives(arms: Arms, tag: nat, b: bytes)
    ensures var w := ParseArms(ArmsOnWire(arms), tag, b);
            w.Ok? ==> Follows(ParseArms(arms, tag, b), w, ReceivedArm(arms, tag, w.value))
    decreases arms, 1
  {
    match arms
    case Reject =>
    case Otherwise(t) => ParseReceives(t, b);
    case Arm(tags, t, more) =>
      if tag in tags {
        ParseReceives(t, b);
      } else {
        ParseArmReceives(more, tag, b);
      }
  }

  // ---------- Where nothing is converted ----------

  predicate Unconverted(t: WireType)
    decreases t, 0
  {
    match t
    case Array(elem) => Unconverted(elem)
    case Record(fields) => forall i :: 0 <= i < |fields| ==> Unconverted(fields[i])
    case Tagged(arms) => UnconvertedArms(arms)
    case Converted(_, _) => false
    case _ => true
  }

  predicate UnconvertedArms(arms: Arms)
    decreases arms, 1
  {
    match arms
    case Reject => true
    case Otherwise(t) => Unconverted(t)
    case Arm(_, t, more) => Unconverted(t) && UnconvertedArms(more)
  }

  /** A type without conversions is on the wire as it is. */
  lemma {:induction false} UnconvertedOnWire(t: WireType)
    requires Unconverted(t)
    ensures OnWire(t) == t
    decreases t, 0
  {
    match t
    case Array(elem) => UnconvertedOnWire(elem);
    case Record(fields) => AllUnconvertedOnWire(fields);
    case Tagged(arms) => UnconvertedArmsOnWire(arms);
    case _ =>
  }

  lemma {:induction false} AllUnconvertedOnWire(ts: seq<WireType>)
    requires forall i :: 0 <= i < |ts| ==> Unconverted(ts[i])
    ensures AllOnWire(ts) == ts
    decreases ts, 1
  {
    if ts != [] {
      UnconvertedOnWire(ts[0]);
      AllUnconvertedOnWire(ts[1..]);
      assert ts == [ts[0]] + ts[1..];
    }
  }

  lemma {:induction false} UnconvertedArmsOnWire(arms: Arms)
    requires UnconvertedArms(arms)
    ensures ArmsOnWire(arms) == arms
    decreases arms, 1
  {
    match arms
    case Reject =>
    case Otherwise(t) => UnconvertedOnWire(t);
    case Arm(_, t, more) =>
      UnconvertedOnWire(t);
      UnconvertedArmsOnWire(more);
  }

  /** And its values are received as they are. */
  lemma {:induction false} UnconvertedReceived(t: WireType, v: Value)
    requires Unconverted(t) && HasType(v, t)
    ensures Received(t, v) == Some(v)
    decreases t, 0
  {
    match t
    case Array(elem) => UnconvertedElemsReceived(elem, v.elems);
    case Record(fields) =>
      HaveTypesPointwise(v.parts, fields);
      forall i | 0 <= i < |fields| ensures Received(fields[i], v.parts[i]) == Some(v.parts[i]) {
        UnconvertedReceived(fields[i], v.parts[i]);
      }
      FieldsReceivedEach(fields, v.parts, v.parts);
    case Tagged(arms) => UnconvertedArmReceived(arms, v.tag, v.payload);
    case _ =>
  }

  lemma {:induction false} UnconvertedElemsReceived(t: WireType, vs: seq<Value>)
    requires Unconverted(t) && forall i :: 0 <= i < |vs| ==> HasType(vs[i], t)
    ensures ReceivedElems(t, vs) == Some(vs)
    decreases t, 1, |vs|
  {
    if vs != [] {
      UnconvertedReceived(t, vs[0]);
      UnconvertedElemsReceived(t, vs[1..]);
      assert vs == [vs[0]] + vs[1..];
    }
  }

  lemma {:induction false} UnconvertedArmReceived(arms: Arms, tag: nat, v: Value)
    requires UnconvertedArms(arms) && HasArmType(v, arms, tag)
    ensures ReceivedArm(arms, tag, v) == Some(v)
    decreases arms, 1
  {
    match arms
    case Otherwise(t) => UnconvertedReceived(t, v);
    case Arm(tags, t, more) =>
      if tag in tags {
        UnconvertedReceived(t, v);
      } else {
        UnconvertedArmReceived(more, tag, v);
      }
  }

  lemma {:induction false} FieldsReceivedEach(ts: seq<WireType>, vs: seq<Value>, ws: seq<Value>)
    requires |ts| == |vs| == |ws| && forall i :: 0 <= i < |ts| ==> Received(ts[i], vs[i]) == Some(ws[i])
    ensures ReceivedFields(ts, vs) == Some(ws)
    decreases |ts|
  {
    if ts != [] {
      FieldsReceivedEach(ts[1..], vs[1..], ws[1..]);
      assert ws == [ws[0]] + ws[1..];
    }
  }

  /** A record is rejected when one of its fields is. */
  lemma {:induction false} FieldRejected(ts: seq<WireType>, vs: seq<Value>, i: nat)
    requires i < |ts| == |vs| && Received(ts[i], vs[i]).None?
    ensures ReceivedFields(ts, vs) == None
    decreases |ts|
  {
    if i > 0 {
      FieldRejected(ts[1..], vs[1..], i - 1);
    }
  }

  /** Whatever the server writes, with empty and unwanted lists as stars or not, is read as what the client makes of it,
      with the exact leftover, or rejected because a conversion rejects it. */
  lemma ServerRoundTrip(t: WireType, v: Value, after: bytes)
    requires PrintableType(OnWire(t)) && Writable(v, OnWire(t))
    requires after != [] && IsSpace(after[0])
    ensures Follows(Parse(t, Print(v) + after), Ok(AsSent(v), Rest(v, after)), Received(t, AsSent(v)))
  {
    RoundTrip(OnWire(t), v, after);
    ParseReceives(t, Print(v) + after);
  }

  /** The items of a list that is read: none where a star was written. */
  function ItemsRead(v: Value): seq<Item<Value>> {
    if AsSent(v).Items? then ItemsOf(AsSent(v).elems) else []
  }

  /** The misc-info that a server sends: every raw list, also a star, is read as its segmentation, whatever follows, or
      rejected. */
  lemma {:induction false} RawMiscIsCooked(raw: Value, after: bytes)
    requires Writable(raw, Array(RAW_MISC_INFO))
    ensures var cooked := Cook(ItemsRead(raw));
            Follows(Parse(COOKED_MISC_INFO, Print(raw) + after), Ok(AsSent(raw), after),
                    if cooked.Some? then Some(Misc(cooked.value)) else None)
  {
    if raw.Star? {
      StarRoundTrip(RAW_MISC_INFO, raw.length, after);
    } else {
      ArrayRoundTrip(RAW_MISC_INFO, raw.elems, after);
    }
    CookedOrRejected(Print(raw) + after, AsSent(raw).elems, after);
  }

  lemma CookedOrRejected(b: bytes, raw: seq<Value>, rest: bytes)
    requires Parse(Array(RAW_MISC_INFO), b) == Ok(Items(raw), rest)
    ensures var cooked := Cook(ItemsOf(raw));
            Follows(Parse(COOKED_MISC_INFO, b), Ok(Items(raw), rest),
                    if cooked.Some? then Some(Misc(cooked.value)) else None)
  {
  }
}
