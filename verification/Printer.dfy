/** The to_string methods, and the round trips from values to bytes and back. */
module Printer {
  import opened Protocol
  import opened MiscInfo
  import opened Options
  import opened Wire

  const OPEN: bytes := [SPACE, OPEN_BRACE, SPACE]

  function BitChars(bits: seq<bool>): (s: bytes)
    ensures |s| == |bits|
  {
    if bits == [] then [] else [if bits[0] then 49 else 48] + BitChars(bits[1..])
  }

  function Print(v: Value): bytes
    decreases v, 0
  {
    match v
    case Number(n) => Decimal(n)
    case Str(s) => ToHString(s)
    case BitList(bits) => BitChars(bits)
    case Items(elems) =>
      if elems == [] then [ZERO] + OPEN + [CLOSE_BRACE]
      else Decimal(|elems|) + OPEN + Join(elems) + [SPACE, CLOSE_BRACE]
    case Star(n) => Decimal(n) + [SPACE, STAR]
    case Fields(parts) => Join(parts)
    case Variant(tag, payload) => Decimal(tag) + [SPACE] + Print(payload)
    case Misc(cooked) => PrintMisc(cooked)
    case TextMap(_) => []
  }

  /** b" ".join(...) */
  function Join(vs: seq<Value>): bytes
    decreases vs, 1
  {
    if vs == [] then []
    else if |vs| == 1 then Print(vs[0])
    else Print(vs[0]) + [SPACE] + Join(vs[1..])
  }

  // ---------- Misc-Info ----------

  /** get_tuples of the items that are sent to the server, in the order of CookedMiscInfo.to_string. */
  function Tuples(c: Cooked<Value>): (r: seq<(nat, nat)>)
    ensures |r| == |c.commentTos| + |c.recipients|
  {
    seq(|c.commentTos|, i requires 0 <= i < |c.commentTos| => (c.commentTos[i].kind, NumberOf(c.commentTos[i].textNo)))
    + seq(|c.recipients|, i requires 0 <= i < |c.recipients| => (c.recipients[i].kind, NumberOf(c.recipients[i].recpt)))
  }

  function PrintTuples(tuples: seq<(nat, nat)>): bytes {
    if tuples == [] then []
    else Decimal(tuples[0].0) + [SPACE] + Decimal(tuples[0].1) + [SPACE] + PrintTuples(tuples[1..])
  }

  function PrintMisc(c: Cooked<Value>): bytes {
    var tuples := Tuples(c);
    Decimal(|tuples|) + OPEN + PrintTuples(tuples) + [CLOSE_BRACE]
  }

  /** What the server gets to see of a cooked misc-info: no comments-in, no fields set by the server. */
  function Stripped(c: Cooked<Value>): Cooked<Value> {
    Cooked(seq(|c.recipients|, i requires 0 <= i < |c.recipients| =>
             Recipient(c.recipients[i].kind, Number(NumberOf(c.recipients[i].recpt)), None, None, None, None)),
           seq(|c.commentTos|, i requires 0 <= i < |c.commentTos| =>
             CommentTo(c.commentTos[i].kind, Number(NumberOf(c.commentTos[i].textNo)), None, None)),
           [])
  }

  // ---------- Printable types and values ----------

  /** The types that one side or the other prints in this layout; records have at least one field. */
  predicate PrintableType(t: WireType)
    decreases t, 0
  {
    match t
    case Natural => true
    case Hollerith => true
    case Bits(_) => true
    case Array(elem) => PrintableType(elem)
    case Record(fields) => fields != [] && forall i :: 0 <= i < |fields| ==> PrintableType(fields[i])
    case Tagged(arms) => PrintableArms(arms)
    case Converted(inner, conversion) => t == COOKED_MISC_INFO
  }

  predicate PrintableArms(arms: Arms)
    decreases arms, 1
  {
    match arms
    case Reject => true
    case Otherwise(t) => PrintableType(t)
    case Arm(_, t, more) => PrintableType(t) && PrintableArms(more)
  }

  /** A `v` may be written where a `t` is read: it has that type, with lists possibly as stars. */
  predicate Writable(v: Value, t: WireType)
    decreases t, 0
  {
    match t
    case Natural => v.Number?
    case Hollerith => v.Str?
    case Bits(len) => v.BitList? && |v.bits| == len
    case Array(elem) => v.Star? || (v.Items? && forall i :: 0 <= i < |v.elems| ==> Writable(v.elems[i], elem))
    case Record(fields) => v.Fields? && AllWritable(v.parts, fields)
    case Tagged(arms) => v.Variant? && ArmWritable(v.payload, arms, v.tag)
    case Converted(_, CookMiscInfo) => v.Misc? && SendableMisc(v.cooked)
    case Converted(_, BuildTextMapping) => v.TextMap?
  }

  predicate AllWritable(vs: seq<Value>, ts: seq<WireType>)
    decreases ts, 1
  {
    |vs| == |ts| && (ts == [] || (Writable(vs[0], ts[0]) && AllWritable(vs[1..], ts[1..])))
  }

  predicate ArmWritable(v: Value, arms: Arms, tag: nat)
    decreases arms, 1
  {
    match arms
    case Reject => false
    case Otherwise(t) => Writable(v, t)
    case Arm(tags, t, more) => if tag in tags then Writable(v, t) else ArmWritable(v, more, tag)
  }

  /** Every value of a type, in particular every parsed one, may be written. */
  lemma {:induction false} TypedIsWritable(v: Value, t: WireType)
    requires HasType(v, t)
    ensures Writable(v, t)
    decreases t, 0
  {
    match t
    case Array(elem) =>
      forall i | 0 <= i < |v.elems| ensures Writable(v.elems[i], elem) {
        TypedIsWritable(v.elems[i], elem);
      }
    case Record(fields) => AllTypedAreWritable(v.parts, fields);
    case Tagged(arms) => TypedArmIsWritable(v.payload, arms, v.tag);
    case _ =>
  }

  lemma {:induction false} AllTypedAreWritable(vs: seq<Value>, ts: seq<WireType>)
    requires HaveTypes(vs, ts)
    ensures AllWritable(vs, ts)
    decreases ts, 1
  {
    if ts != [] {
      TypedIsWritable(vs[0], ts[0]);
      AllTypedAreWritable(vs[1..], ts[1..]);
    }
  }

  lemma {:induction false} TypedArmIsWritable(v: Value, arms: Arms, tag: nat)
    requires HasArmType(v, arms, tag)
    ensures ArmWritable(v, arms, tag)
    decreases arms, 1
  {
    match arms
    case Otherwise(t) => TypedIsWritable(v, t);
    case Arm(tags, t, more) =>
      if tag in tags {
        TypedIsWritable(v, t);
      } else {
        TypedArmIsWritable(v, more, tag);
      }
  }

  /** What comes back: the value itself, with misc-infos stripped and stars as empty lists. */
  function AsSent(v: Value): Value
    decreases v, 0
  {
    match v
    case Items(elems) => Items(AllAsSent(elems))
    case Star(_) => Items([])
    case Fields(parts) => Fields(AllAsSent(parts))
    case Variant(tag, payload) => Variant(tag, AsSent(payload))
    case Misc(cooked) => Misc(Stripped(cooked))
    case _ => v
  }

  function AllAsSent(vs: seq<Value>): (r: seq<Value>)
    ensures |r| == |vs|
    decreases vs, 1
  {
    if vs == [] then [] else [AsSent(vs[0])] + AllAsSent(vs[1..])
  }

  /** Numbers and bit strings swallow the byte that follows them; strings and lists do not. */
  predicate Swallows(v: Value) {
    match v
    case Number(_) => true
    case BitList(_) => true
    case Fields(parts) => parts != [] && Swallows(parts[|parts| - 1])
    case Variant(_, payload) => Swallows(payload)
    case _ => false
  }

  /** What is left of the bytes behind `v`. */
  function Rest(v: Value, after: bytes): bytes
    requires after != []
  {
    if Swallows(v) then after[1..] else after
  }

  // ---------- Leading white space ----------

  lemma ArraySkipsSpace(t: WireType, b: bytes)
    ensures Parse(Array(t), [SPACE] + b) == Parse(Array(t), b)
  {
    SkipSpace(SPACE, b);
    assert Nat([SPACE] + b) == Nat(b);
  }

  lemma {:induction false} ParseSkipsSpace(t: WireType, b: bytes)
    requires PrintableType(t)
    ensures Parse(t, [SPACE] + b) == Parse(t, b)
    decreases t
  {
    SkipSpace(SPACE, b);
    match t
    case Natural =>
    case Hollerith =>
    case Bits(_) =>
    case Array(elem) => ArraySkipsSpace(elem, b);
    case Record(fields) => ParseSkipsSpace(fields[0], b);
    case Tagged(_) => assert Nat([SPACE] + b) == Nat(b);
    case Converted(_, _) => ArraySkipsSpace(RAW_MISC_INFO, b);
  }

  // ---------- The round trip ----------

  lemma {:induction false} BitsRoundTrip(bits: seq<bool>, after: bytes)
    requires after != []
    ensures var b := BitChars(bits) + after; BitsFrom(|bits|, b[0], b[1..]) == Ok(bits, after[1..])
  {
    var b := BitChars(bits) + after;
    if bits == [] {
      assert b == after;
    } else {
      BitsRoundTrip(bits[1..], after);
      assert b[1..] == BitChars(bits[1..]) + after;
      assert bits == [bits[0]] + bits[1..];
    }
  }

  lemma FirstIs(c: byte, b: bytes)
    requires !IsSpace(c)
    ensures FirstNonSpace([c] + b) == Ok(c, b)
  {
    assert ([c] + b)[1..] == b;
  }

  /** Behind the length and the opening brace, the elements and the closing brace decide. */
  lemma ArrayOpens(t: WireType, n: nat, body: bytes)
    ensures Parse(Array(t), Decimal(n) + ([SPACE] + ([OPEN_BRACE] + body))) == ArrayBody(t, n, body)
  {
    var braced := [OPEN_BRACE] + body;
    NatOfDecimal(n, [SPACE] + braced);
    assert ([SPACE] + braced)[1..] == braced;
    FirstIs(OPEN_BRACE, body);
  }

  function ArrayBody(t: WireType, n: nat, body: bytes): Parsed<Value> {
    var (elems, r) :- ParseElems(t, n, body);
    var (right, r') :- FirstNonSpace(r);
    if right != CLOSE_BRACE then Bad(ProtocolError, r') else Ok(Items(elems), r')
  }

  lemma ArrayCloses(lead: bytes, after: bytes)
    requires lead == [] || lead == [SPACE]
    ensures FirstNonSpace(lead + ([CLOSE_BRACE] + after)) == Ok(CLOSE_BRACE, after)
  {
    FirstIs(CLOSE_BRACE, after);
    SkipSpace(SPACE, [CLOSE_BRACE] + after);
    assert [] + ([CLOSE_BRACE] + after) == [CLOSE_BRACE] + after;
  }

  lemma {:induction false} BitStringRoundTrip(len: Positive, bits: seq<bool>, after: bytes)
    requires |bits| == len && after != []
    ensures Parse(Bits(len), BitChars(bits) + after) == Ok(BitList(bits), after[1..])
  {
    var b := BitChars(bits) + after;
    assert FirstNonSpace(b) == Ok(b[0], b[1..]);
    BitsRoundTrip(bits, after);
  }

  lemma TagRoundTrip(arms: Arms, tag: nat, printed: bytes, after: bytes)
    ensures Parse(Tagged(arms), Decimal(tag) + [SPACE] + printed + after) ==
            match ParseArms(arms, tag, printed + after)
            case Ok(v, r) => Ok(Variant(tag, v), r)
            case Bad(e, r) => Bad(e, r)
            case More => More
  {
    var tail := [SPACE] + (printed + after);
    assert Decimal(tag) + [SPACE] + printed + after == Decimal(tag) + tail;
    NatOfDecimal(tag, tail);
    assert tail[1..] == printed + after;
  }

  /** A star reads back as the empty list whatever follows it. */
  lemma StarRoundTrip(t: WireType, n: nat, after: bytes)
    ensures Parse(Array(t), Print(Star(n)) + after) == Ok(Items([]), after)
  {
    var tail := [SPACE] + ([STAR] + after);
    assert Print(Star(n)) + after == Decimal(n) + tail;
    NatOfDecimal(n, tail);
    assert tail[1..] == [STAR] + after;
    FirstIs(STAR, after);
  }

  /** Parsing a printed value followed by white space gives the value back; the white space is left for the
      next reader unless the value swallows it. */
  lemma {:induction false} RoundTrip(t: WireType, v: Value, after: bytes)
    requires PrintableType(t) && Writable(v, t)
    requires after != [] && IsSpace(after[0])
    ensures Parse(t, Print(v) + after) == Ok(AsSent(v), Rest(v, after))
    decreases t, 0
  {
    match t
    case Natural => NatOfDecimal(v.n, after);
    case Hollerith => HStringRoundTrip(v.s, after);
    case Bits(len) => BitStringRoundTrip(len, v.bits, after);
    case Array(elem) =>
      if v.Star? {
        StarRoundTrip(elem, v.length, after);
      } else {
        ArrayRoundTrip(elem, v.elems, after);
      }
    case Record(fields) =>
      FieldsRoundTrip(fields, v.parts, [], after);
      assert [] + (Join(v.parts) + after) == Print(v) + after;
    case Tagged(arms) =>
      TagRoundTrip(arms, v.tag, Print(v.payload), after);
      ArmsRoundTrip(arms, v.tag, v.payload, after);
    case Converted(inner, conversion) => ConvertedRoundTrip(inner, conversion, v, after);
  }

  lemma {:induction false} ConvertedRoundTrip(inner: WireType, conversion: Conversion, v: Value, after: bytes)
    requires var t := Converted(inner, conversion); PrintableType(t) && Writable(v, t)
    requires after != []
    ensures Parse(Converted(inner, conversion), Print(v) + after) == Ok(AsSent(v), Rest(v, after))
    decreases inner, 4
  {
    RawIsTyped(v.cooked);
    ArrayRoundTrip(RAW_MISC_INFO, RawTuples(Tuples(v.cooked)), after);
    MiscFromRaw(v.cooked, after);
  }

  lemma {:induction false} ArmsRoundTrip(arms: Arms, tag: nat, v: Value, after: bytes)
    requires PrintableArms(arms) && ArmWritable(v, arms, tag)
    requires after != [] && IsSpace(after[0])
    ensures ParseArms(arms, tag, Print(v) + after) == Ok(AsSent(v), Rest(v, after))
    decreases arms, 1
  {
    match arms
    case Otherwise(t) => RoundTrip(t, v, after);
    case Arm(tags, t, more) =>
      if tag in tags {
        RoundTrip(t, v, after);
      } else {
        ArmsRoundTrip(more, tag, v, after);
      }
  }

  /** One value of a sequence, perhaps with a space in front of it that its predecessor left. */
  lemma {:induction false} OneOfMany(t: WireType, v: Value, lead: bytes, after: bytes)
    requires PrintableType(t) && Writable(v, t)
    requires lead == [] || lead == [SPACE]
    requires after != [] && IsSpace(after[0])
    ensures Parse(t, lead + (Print(v) + after)) == Ok(AsSent(v), Rest(v, after))
    decreases t, 1
  {
    RoundTrip(t, v, after);
    if lead == [] {
      assert [] + (Print(v) + after) == Print(v) + after;
    } else {
      ParseSkipsSpace(t, Print(v) + after);
    }
  }

  /** The space that `v` leaves in front of what follows it. */
  function LeadAfter(v: Value): (lead: bytes)
    ensures lead == [] || lead == [SPACE]
  {
    if Swallows(v) then [] else [SPACE]
  }

  lemma LeavesLead(v: Value, tail: bytes)
    ensures Rest(v, [SPACE] + tail) == LeadAfter(v) + tail
  {
    assert ([SPACE] + tail)[1..] == tail && [] + tail == tail;
  }

  lemma {:induction false} JoinCons(vs: seq<Value>, after: bytes)
    requires |vs| > 1
    ensures Join(vs) + after == Print(vs[0]) + ([SPACE] + (Join(vs[1..]) + after))
  {
  }

  lemma ParseFieldsCons(ts: seq<WireType>, b: bytes, v: Value, r: bytes, vs: seq<Value>, r': bytes)
    requires ts != [] && Parse(ts[0], b) == Ok(v, r) && ParseFields(ts[1..], r) == Ok(vs, r')
    ensures ParseFields(ts, b) == Ok([v] + vs, r')
  {
  }

  /** The first of several fields, up to the space it leaves in front of the others. */
  lemma {:induction false} FirstField(t: WireType, vs: seq<Value>, lead: bytes, after: bytes)
    requires PrintableType(t) && |vs| > 1 && Writable(vs[0], t)
    requires lead == [] || lead == [SPACE]
    ensures Parse(t, lead + (Join(vs) + after)) == Ok(AsSent(vs[0]), LeadAfter(vs[0]) + (Join(vs[1..]) + after))
    decreases t, 2
  {
    var tail := Join(vs[1..]) + after;
    JoinCons(vs, after);
    OneOfMany(t, vs[0], lead, [SPACE] + tail);
    LeavesLead(vs[0], tail);
  }

  lemma {:induction false} FieldsRoundTrip(ts: seq<WireType>, vs: seq<Value>, lead: bytes, after: bytes)
    requires ts != [] && AllWritable(vs, ts)
    requires lead == [] || lead == [SPACE]
    requires after != [] && IsSpace(after[0])
    requires forall i :: 0 <= i < |ts| ==> PrintableType(ts[i])
    ensures ParseFields(ts, lead + (Join(vs) + after)) == Ok(AllAsSent(vs), Rest(vs[|vs| - 1], after))
    decreases ts, 1
  {
    if |vs| == 1 {
      OneOfMany(ts[0], vs[0], lead, after);
      assert vs[1..] == [] && ts[1..] == [];
      assert ParseFields(ts[1..], Rest(vs[0], after)) == Ok([], Rest(vs[0], after));
    } else {
      var b, rest, tail := lead + (Join(vs) + after), vs[1..], LeadAfter(vs[0]) + (Join(vs[1..]) + after);
      assert Parse(ts[0], b) == Ok(AsSent(vs[0]), tail) by {
        FirstField(ts[0], vs, lead, after);
      }
      assert ParseFields(ts[1..], tail) == Ok(AllAsSent(rest), Rest(rest[|rest| - 1], after)) by {
        FieldsRoundTrip(ts[1..], rest, LeadAfter(vs[0]), after);
      }
      ParseFieldsCons(ts, b, AsSent(vs[0]), tail, AllAsSent(rest), Rest(vs[|vs| - 1], after));
    }
  }

  /** Every value followed by a space. */
  function Spaced(vs: seq<Value>): bytes {
    if vs == [] then [] else Print(vs[0]) + [SPACE] + Spaced(vs[1..])
  }

  lemma {:induction false} JoinSpaced(vs: seq<Value>)
    requires vs != []
    ensures Join(vs) + [SPACE] == Spaced(vs)
  {
    if |vs| > 1 {
      JoinSpaced(vs[1..]);
      assert Join(vs) + [SPACE] == Print(vs[0]) + [SPACE] + (Join(vs[1..]) + [SPACE]);
    } else {
      assert vs[1..] == [];
    }
  }

  /** The space left in front of the closing brace. */
  function LastLead(vs: seq<Value>, lead: bytes): bytes {
    if vs == [] then lead else LeadAfter(vs[|vs| - 1])
  }

  lemma SpacedCons(vs: seq<Value>, after: bytes)
    requires vs != []
    ensures Spaced(vs) + after == Print(vs[0]) + ([SPACE] + (Spaced(vs[1..]) + after))
  {
  }

  lemma ParseElemsCons(t: WireType, n: nat, b: bytes, v: Value, r: bytes, vs: seq<Value>, r': bytes)
    requires n > 0 && Parse(t, b) == Ok(v, r) && ParseElems(t, n - 1, r) == Ok(vs, r')
    ensures ParseElems(t, n, b) == Ok([v] + vs, r')
  {
  }

  /** The first of several values, up to the space it leaves in front of the others. */
  lemma {:induction false} FirstElem(t: WireType, vs: seq<Value>, lead: bytes, after: bytes)
    requires PrintableType(t) && vs != [] && Writable(vs[0], t)
    requires lead == [] || lead == [SPACE]
    ensures Parse(t, lead + (Spaced(vs) + after)) ==
            Ok(AsSent(vs[0]), LeadAfter(vs[0]) + (Spaced(vs[1..]) + after))
    decreases t, 2, 0
  {
    var tail := Spaced(vs[1..]) + after;
    SpacedCons(vs, after);
    OneOfMany(t, vs[0], lead, [SPACE] + tail);
    LeavesLead(vs[0], tail);
  }

  lemma {:induction false} ElemsRoundTrip(t: WireType, vs: seq<Value>, lead: bytes, after: bytes)
    requires PrintableType(t)
    requires lead == [] || lead == [SPACE]
    requires forall i :: 0 <= i < |vs| ==> Writable(vs[i], t)
    ensures ParseElems(t, |vs|, lead + (Spaced(vs) + after)) == Ok(AllAsSent(vs), LastLead(vs, lead) + after)
    decreases t, 2, |vs|
  {
    if vs == [] {
      assert Spaced(vs) + after == after;
    } else {
      var b, rest, lead' := lead + (Spaced(vs) + after), vs[1..], LeadAfter(vs[0]);
      var left := LastLead(rest, lead') + after;
      assert ParseElems(t, |vs|, b) == Ok([AsSent(vs[0])] + AllAsSent(rest), left) by {
        FirstElem(t, vs, lead, after);
        ElemsRoundTrip(t, rest, lead', after);
        ParseElemsCons(t, |vs|, b, AsSent(vs[0]), lead' + (Spaced(rest) + after), AllAsSent(rest), left);
      }
      assert LastLead(vs, lead) == LastLead(rest, lead');
    }
  }

  /** The layout shared by printed lists and misc-infos. */
  function Braced(n: nat, inside: bytes, after: bytes): bytes {
    Decimal(n) + ([SPACE] + ([OPEN_BRACE] + ([SPACE] + (inside + ([CLOSE_BRACE] + after)))))
  }

  lemma BracedLayout(n: nat, inside: bytes, after: bytes)
    ensures Decimal(n) + OPEN + inside + [CLOSE_BRACE] + after == Braced(n, inside, after)
  {
    var d, x := Decimal(n), inside + ([CLOSE_BRACE] + after);
    Regroup(d + OPEN + inside, [CLOSE_BRACE], after);
    Regroup(d + OPEN, inside, [CLOSE_BRACE] + after);
    Regroup(d, OPEN, x);
    assert OPEN + x == [SPACE] + ([OPEN_BRACE] + ([SPACE] + x));
  }

  lemma SpaceAndBrace(front: bytes, inside: bytes)
    ensures front + inside + [SPACE, CLOSE_BRACE] == front + (inside + [SPACE]) + [CLOSE_BRACE]
  {
    assert [SPACE, CLOSE_BRACE] == [SPACE] + [CLOSE_BRACE];
    Regroup(front + inside, [SPACE], [CLOSE_BRACE]);
    Regroup(front, inside, [SPACE]);
  }

  lemma {:induction false} PrintItemsSpaced(vs: seq<Value>)
    ensures Print(Items(vs)) == Decimal(|vs|) + OPEN + Spaced(vs) + [CLOSE_BRACE]
  {
    var front := Decimal(|vs|) + OPEN;
    if vs == [] {
      assert Decimal(0) == [ZERO];
      assert front + Spaced(vs) == front;
    } else {
      JoinSpaced(vs);
      SpaceAndBrace(front, Join(vs));
    }
  }

  lemma {:induction false} PrintItems(vs: seq<Value>, after: bytes)
    ensures Print(Items(vs)) + after == Braced(|vs|, Spaced(vs), after)
  {
    PrintItemsSpaced(vs);
    BracedLayout(|vs|, Spaced(vs), after);
  }

  /** A printed list reads back whatever follows it, and nothing after it is touched. */
  lemma {:induction false} ArrayRoundTrip(t: WireType, vs: seq<Value>, after: bytes)
    requires PrintableType(t)
    requires forall i :: 0 <= i < |vs| ==> Writable(vs[i], t)
    ensures Parse(Array(t), Print(Items(vs)) + after) == Ok(Items(AllAsSent(vs)), after)
    decreases t, 3
  {
    var close := [CLOSE_BRACE] + after;
    PrintItems(vs, after);
    ElemsRoundTrip(t, vs, [SPACE], close);
    ArrayOpens(t, |vs|, [SPACE] + (Spaced(vs) + close));
    ArrayCloses(LastLead(vs, [SPACE]), after);
  }

  /** No misc-info and no star inside. */
  predicate Plain(v: Value) {
    match v
    case Items(elems) => forall i :: 0 <= i < |elems| ==> Plain(elems[i])
    case Fields(parts) => forall i :: 0 <= i < |parts| ==> Plain(parts[i])
    case Variant(_, payload) => Plain(payload)
    case Misc(_) => false
    case Star(_) => false
    case _ => true
  }

  lemma {:induction false} PlainAsSent(v: Value)
    requires Plain(v)
    ensures AsSent(v) == v
    decreases v, 0
  {
    match v
    case Items(elems) => AllPlainAsSent(elems);
    case Fields(parts) => AllPlainAsSent(parts);
    case Variant(_, payload) => PlainAsSent(payload);
    case _ =>
  }

  lemma {:induction false} AllPlainAsSent(vs: seq<Value>)
    requires forall i :: 0 <= i < |vs| ==> Plain(vs[i])
    ensures AllAsSent(vs) == vs
    decreases vs, 1
  {
    if vs != [] {
      PlainAsSent(vs[0]);
      AllPlainAsSent(vs[1..]);
      assert vs == [vs[0]] + vs[1..];
    }
  }

  /** Without misc-infos inside, what is parsed is what was printed. */
  lemma {:induction false} PlainRoundTrip(t: WireType, v: Value, after: bytes)
    requires PrintableType(t) && HasType(v, t) && Plain(v)
    requires after != [] && IsSpace(after[0])
    ensures Parse(t, Print(v) + after) == Ok(v, Rest(v, after))
  {
    PlainAsSent(v);
    TypedIsWritable(v, t);
    RoundTrip(t, v, after);
  }

  /** What comes back has the type at which it is read. */
  lemma AsSentTyped(t: WireType, v: Value)
    requires PrintableType(t) && Writable(v, t)
    ensures HasType(AsSent(v), t)
  {
    RoundTrip(t, v, [SPACE]);
    ParseTyped(t, Print(v) + [SPACE]);
  }

  lemma {:induction false} AllAsSentAt(vs: seq<Value>, i: nat)
    requires i < |vs|
    ensures AllAsSent(vs)[i] == AsSent(vs[i])
  {
    if i > 0 {
      AllAsSentAt(vs[1..], i - 1);
    }
  }

  lemma {:induction false} AllWritableEach(vs: seq<Value>, ts: seq<WireType>)
    requires |vs| == |ts| && forall i :: 0 <= i < |ts| ==> Writable(vs[i], ts[i])
    ensures AllWritable(vs, ts)
    decreases |ts|
  {
    if ts != [] {
      AllWritableEach(vs[1..], ts[1..]);
    }
  }

  lemma {:induction false} AllWritableAt(vs: seq<Value>, ts: seq<WireType>, i: nat)
    requires AllWritable(vs, ts) && i < |ts|
    ensures Writable(vs[i], ts[i])
    decreases |ts|
  {
    if i > 0 {
      AllWritableAt(vs[1..], ts[1..], i - 1);
    }
  }

  lemma {:induction false} PrintNonEmpty(t: WireType, v: Value)
    requires PrintableType(t) && Writable(v, t)
    ensures Print(v) != []
    decreases t
  {
    match t
    case Bits(len) => assert |BitChars(v.bits)| == len;
    case Record(fields) => PrintNonEmpty(fields[0], v.parts[0]);
    case _ =>
  }

  // ---------- Misc-Info round trip ----------

  /** The raw items that a list of tuples spells out. */
  function RawTuples(tuples: seq<(nat, nat)>): (r: seq<Value>)
    ensures |r| == |tuples|
    ensures forall i :: 0 <= i < |tuples| ==> r[i] == Variant(tuples[i].0, Number(tuples[i].1))
  {
    seq(|tuples|, i requires 0 <= i < |tuples| => Variant(tuples[i].0, Number(tuples[i].1)))
  }

  lemma {:induction false} TuplesAreSpaced(tuples: seq<(nat, nat)>)
    ensures PrintTuples(tuples) == Spaced(RawTuples(tuples))
  {
    if tuples != [] {
      TuplesAreSpaced(tuples[1..]);
      var raw := RawTuples(tuples);
      assert raw[1..] == RawTuples(tuples[1..]);
      assert Print(raw[0]) == Decimal(tuples[0].0) + [SPACE] + Decimal(tuples[0].1);
    }
  }

  lemma {:induction false} RawAsSent(vs: seq<Value>)
    requires forall i :: 0 <= i < |vs| ==> vs[i].Variant? && vs[i].payload.Number?
    ensures AllAsSent(vs) == vs
  {
    if vs != [] {
      RawAsSent(vs[1..]);
      assert AsSent(vs[0]) == vs[0];
      assert vs == [vs[0]] + vs[1..];
    }
  }

  predicate HeadTuples(tuples: seq<(nat, nat)>) {
    forall i :: 0 <= i < |tuples| ==> IsRecipient(tuples[i].0) || IsCommentTo(tuples[i].0)
  }

  /** Heads without additional items cook to themselves. */
  function Bare(tuples: seq<(nat, nat)>): Cooked<Value> {
    if tuples == [] then Cooked([], [], [])
    else Single(Item(tuples[0].0, Number(tuples[0].1)), []).Append(Bare(tuples[1..]))
  }

  lemma {:induction false} CookTuples(tuples: seq<(nat, nat)>)
    requires HeadTuples(tuples)
    ensures Cook(ItemsOf(RawTuples(tuples))) == Some(Bare(tuples))
  {
    var raw := ItemsOf(RawTuples(tuples));
    if tuples != [] {
      CookTuples(tuples[1..]);
      assert raw[1..] == ItemsOf(RawTuples(tuples[1..]));
      ExtentReaches(raw[1..], 0);
      assert raw[1..1] == [];
    }
  }

  lemma {:induction false} BareConcat(a: seq<(nat, nat)>, b: seq<(nat, nat)>)
    ensures Bare(a + b) == Bare(a).Append(Bare(b))
  {
    if a == [] {
      assert a + b == b;
      AppendNothing(Bare(b));
    } else {
      assert (a + b)[1..] == a[1..] + b;
      BareConcat(a[1..], b);
      AppendAssociates(Single(Item(a[0].0, Number(a[0].1)), []), Bare(a[1..]), Some(Bare(b)));
    }
  }

  lemma {:induction false} BareRecipients(tuples: seq<(nat, nat)>)
    requires forall i :: 0 <= i < |tuples| ==> IsRecipient(tuples[i].0)
    ensures Bare(tuples) == Cooked(seq(|tuples|, i requires 0 <= i < |tuples| =>
              Recipient(tuples[i].0, Number(tuples[i].1), None, None, None, None)), [], [])
  {
    if tuples != [] {
      BareRecipients(tuples[1..]);
    }
  }

  lemma {:induction false} BareCommentTos(tuples: seq<(nat, nat)>)
    requires forall i :: 0 <= i < |tuples| ==> IsCommentTo(tuples[i].0)
    ensures Bare(tuples) == Cooked([], seq(|tuples|, i requires 0 <= i < |tuples| =>
              CommentTo(tuples[i].0, Number(tuples[i].1), None, None)), [])
  {
    if tuples != [] {
      BareCommentTos(tuples[1..]);
    }
  }

  lemma CookStripped(c: Cooked<Value>)
    requires SendableMisc(c)
    ensures Cook(ItemsOf(RawTuples(Tuples(c)))) == Some(Stripped(c))
  {
    var tuples := Tuples(c);
    var to, recipients := tuples[..|c.commentTos|], tuples[|c.commentTos|..];
    assert tuples == to + recipients;
    CookTuples(tuples);
    BareConcat(to, recipients);
    BareCommentTos(to);
    BareRecipients(recipients);
    assert Bare(tuples).recipients == Stripped(c).recipients;
    assert Bare(tuples).commentTos == Stripped(c).commentTos;
  }

  lemma RawIsTyped(c: Cooked<Value>)
    requires SendableMisc(c)
    ensures forall v :: v in RawTuples(Tuples(c)) ==> Writable(v, RAW_MISC_INFO)
  {
    forall i | 0 <= i < |Tuples(c)| ensures Writable(RawTuples(Tuples(c))[i], RAW_MISC_INFO) {
      assert IsRecipient(Tuples(c)[i].0) || IsCommentTo(Tuples(c)[i].0);
    }
  }

  /** A misc-info prints as the list of its tuples. */
  lemma PrintMiscItems(c: Cooked<Value>, after: bytes)
    ensures PrintMisc(c) + after == Print(Items(RawTuples(Tuples(c)))) + after
  {
    PrintItems(RawTuples(Tuples(c)), after);
    BracedLayout(|Tuples(c)|, PrintTuples(Tuples(c)), after);
    TuplesAreSpaced(Tuples(c));
  }

  /** Reading a misc-info is reading its raw items and cooking them. */
  lemma CookedFromRaw(b: bytes, raw: seq<Value>, rest: bytes, c: Cooked<Value>)
    requires Parse(Array(RAW_MISC_INFO), b) == Ok(Items(raw), rest) && Cook(ItemsOf(raw)) == Some(c)
    ensures Parse(COOKED_MISC_INFO, b) == Ok(Misc(c), rest)
  {
    assert Convert(CookMiscInfo, Items(raw)) == Some(Misc(c));
  }

  lemma {:induction false} MiscFromRaw(c: Cooked<Value>, after: bytes)
    requires SendableMisc(c)
    requires var raw := RawTuples(Tuples(c));
             Parse(Array(RAW_MISC_INFO), Print(Items(raw)) + after) == Ok(Items(AllAsSent(raw)), after)
    ensures Parse(COOKED_MISC_INFO, PrintMisc(c) + after) == Ok(Misc(Stripped(c)), after)
  {
    var raw := RawTuples(Tuples(c));
    PrintMiscItems(c, after);
    RawAsSent(raw);
    CookStripped(c);
    CookedFromRaw(PrintMisc(c) + after, raw, after, Stripped(c));
  }

  /** Printing and parsing a cooked misc-info keeps the recipients' and the comment-tos' kinds and numbers, in
      order, and drops the rest. */
  lemma MiscRoundTrip(c: Cooked<Value>, after: bytes)
    requires SendableMisc(c)
    ensures Parse(COOKED_MISC_INFO, PrintMisc(c) + after) == Ok(Misc(Stripped(c)), after)
    ensures |Stripped(c).recipients| == |c.recipients| && |Stripped(c).commentTos| == |c.commentTos|
    ensures Stripped(c).commentIns == []
    ensures forall i :: 0 <= i < |c.recipients| ==>
              Stripped(c).recipients[i] ==
              Recipient(c.recipients[i].kind, Number(NumberOf(c.recipients[i].recpt)), None, None, None, None)
    ensures forall i :: 0 <= i < |c.commentTos| ==>
              Stripped(c).commentTos[i] ==
              CommentTo(c.commentTos[i].kind, Number(NumberOf(c.commentTos[i].textNo)), None, None)
  {
    RawIsTyped(c);
    ArrayRoundTrip(RAW_MISC_INFO, RawTuples(Tuples(c)), after);
    MiscFromRaw(c, after);
  }
}
