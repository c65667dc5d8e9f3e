/** The data types of Protocol A as they travel on the wire, and the parser they share.

    A `WireType` stands for a class of datatypes.py; `Parse` for its parse method, on the bytes that have
    arrived so far. */
module Wire {
  import opened Protocol
  import opened MiscInfo
  import opened Options

  type Positive = n: nat | 0 < n witness 1

  /** What is done to a value after it was read, without reading more. */
  datatype Conversion = CookMiscInfo | BuildTextMapping

  datatype WireType =
    | Natural
    | Hollerith
    | Bits(len: Positive)
    | Array(elem: WireType)
    | Record(fields: seq<WireType>)
    | Tagged(arms: Arms)
    | Converted(inner: WireType, conversion: Conversion)

  /** The alternatives of a type that reads a number first and decides by it. */
  datatype Arms = Reject | Otherwise(default: WireType) | Arm(tags: set<nat>, chosen: WireType, more: Arms)

  datatype Mapping =
    Mapping(rangeBegin: nat, rangeEnd: nat, laterTextsExist: nat, entries: seq<(nat, nat)>, dict: map<nat, nat>)

  /** Star: a list of which only the length is written, as servers do for empty and for unwanted lists.  It is read as
      the empty list, so no parsed value holds one. */
  datatype Value =
    | Number(n: nat)
    | Str(s: bytes)
    | BitList(bits: seq<bool>)
    | Items(elems: seq<Value>)
    | Star(length: nat)
    | Fields(parts: seq<Value>)
    | Variant(tag: nat, payload: Value)
    | Misc(cooked: Cooked<Value>)
    | TextMap(mapping: Mapping)

  // ---------- The types used by the core of the client ----------

  const TIME := Record([Natural, Natural, Natural, Natural, Natural, Natural, Natural, Natural, Natural])
  const RAW_MISC_INFO := Tagged(Arm({MI_REC_TIME, MI_SENT_AT}, TIME, Otherwise(Natural)))
  const COOKED_MISC_INFO := Converted(Array(RAW_MISC_INFO), CookMiscInfo)
  const TEXT_NUMBER_PAIR := Record([Natural, Natural])
  const SPARSE_BLOCK := Array(TEXT_NUMBER_PAIR)
  const DENSE_BLOCK := Record([Natural, Array(Natural)])
  const RAW_TEXT_MAPPING :=
    Record([Natural, Natural, Natural, Tagged(Arm({0}, SPARSE_BLOCK, Arm({1}, DENSE_BLOCK, Reject)))])
  const TEXT_MAPPING := Converted(RAW_TEXT_MAPPING, BuildTextMapping)

  // ---------- Conversions ----------

  function NumberOf(v: Value): nat {
    if v.Number? then v.n else 0
  }

  function ItemOf(v: Value): Item<Value> {
    if v.Variant? then Item(v.tag, v.payload) else Item(0, v)
  }

  function ItemsOf(vs: seq<Value>): (r: seq<Item<Value>>)
    ensures |r| == |vs| && forall i :: 0 <= i < |vs| ==> r[i] == ItemOf(vs[i])
  {
    seq(|vs|, i requires 0 <= i < |vs| => ItemOf(vs[i]))
  }

  /** The sparse form lists pairs. */
  function Pairs(vs: seq<Value>): (r: seq<(nat, nat)>)
    ensures |r| == |vs|
  {
    seq(|vs|, i requires 0 <= i < |vs| =>
      if vs[i].Fields? && |vs[i].parts| == 2 then (NumberOf(vs[i].parts[0]), NumberOf(vs[i].parts[1])) else (0, 0))
  }

  /** The dense form numbers its texts consecutively. */
  function Consecutive(first: nat, vs: seq<Value>): (r: seq<(nat, nat)>)
    ensures |r| == |vs|
  {
    seq(|vs|, i requires 0 <= i < |vs| => (first + i, NumberOf(vs[i])))
  }

  /** The dictionary that a list of pairs fills from left to right. */
  function Induced(entries: seq<(nat, nat)>): map<nat, nat> {
    if entries == [] then map[]
    else
      var n := |entries| - 1;
      Induced(entries[..n])[entries[n].0 := entries[n].1]
  }

  function EntriesOf(block: Value): seq<(nat, nat)> {
    if block.Items? then Pairs(block.elems)
    else if block.Fields? && |block.parts| == 2 && block.parts[1].Items? then
      Consecutive(NumberOf(block.parts[0]), block.parts[1].elems)
    else []
  }

  function MappingOf(v: Value): Mapping {
    if v.Fields? && |v.parts| == 4 && v.parts[3].Variant? then
      var entries := EntriesOf(v.parts[3].payload);
      Mapping(NumberOf(v.parts[0]), NumberOf(v.parts[1]), NumberOf(v.parts[2]), entries, Induced(entries))
    else Mapping(0, 0, 0, [], map[])
  }

  function Convert(conversion: Conversion, v: Value): Option<Value> {
    match conversion
    case CookMiscInfo =>
      var cooked := Cook(if v.Items? then ItemsOf(v.elems) else []);
      if cooked.None? then None else Some(Misc(cooked.value))
    case BuildTextMapping => Some(TextMap(MappingOf(v)))
  }

  // ---------- The parser ----------

  /** The loop of Bitstring.parse, with byte `c` in hand: one byte behind the last bit is swallowed. */
  function BitsFrom(k: nat, c: byte, b: bytes): (p: Parsed<seq<bool>>)
    ensures !p.More? ==> |p.rest| <= |b|
    ensures p.Bad? ==> p.error == ProtocolError
    ensures p.Ok? ==> |p.value| == k
    decreases k
  {
    if k == 0 then Ok([], b)
    else if c != 48 && c != 49 then Bad(ProtocolError, b)
    else if b == [] then More
    else
      var (bits, r) :- BitsFrom(k - 1, b[0], b[1..]);
      Ok([c == 49] + bits, r)
  }

  function Parse(t: WireType, b: bytes): (p: Parsed<Value>)
    ensures !p.More? ==> |p.rest| <= |b|
    ensures p.Bad? ==> p.error == ProtocolError
    decreases t, 0
  {
    match t
    case Natural =>
      var (n, r) :- Nat(b);
      Ok(Number(n), r)
    case Hollerith =>
      var (s, r) :- HString(b);
      Ok(Str(s), r)
    case Bits(len) =>
      var (c, r) :- FirstNonSpace(b);
      var (bits, r') :- BitsFrom(len, c, r);
      Ok(BitList(bits), r')
    case Array(elem) =>
      var (length, r) :- Nat(b);
      var (left, r') :- FirstNonSpace(r);
      if left == STAR then Ok(Items([]), r')
      else if left != OPEN_BRACE then Bad(ProtocolError, r')
      else
        var (elems, r'') :- ParseElems(elem, length, r');
        var (right, r''') :- FirstNonSpace(r'');
        if right != CLOSE_BRACE then Bad(ProtocolError, r''') else Ok(Items(elems), r''')
    case Record(fields) =>
      var (parts, r) :- ParseFields(fields, b);
      Ok(Fields(parts), r)
    case Tagged(arms) =>
      var (tag, r) :- Nat(b);
      var (payload, r') :- ParseArms(arms, tag, r);
      Ok(Variant(tag, payload), r')
    case Converted(inner, conversion) =>
      var (v, r) :- Parse(inner, b);
      var converted := Convert(conversion, v);
      if converted.None? then Bad(ProtocolError, r) else Ok(converted.value, r)
  }

  function ParseElems(t: WireType, n: nat, b: bytes): (p: Parsed<seq<Value>>)
    ensures !p.More? ==> |p.rest| <= |b|
    ensures p.Bad? ==> p.error == ProtocolError
    decreases t, 1, n
  {
    if n == 0 then Ok([], b)
    else
      var (v, r) :- Parse(t, b);
      var (vs, r') :- ParseElems(t, n - 1, r);
      Ok([v] + vs, r')
  }

  function ParseFields(ts: seq<WireType>, b: bytes): (p: Parsed<seq<Value>>)
    ensures !p.More? ==> |p.rest| <= |b|
    ensures p.Bad? ==> p.error == ProtocolError
    decreases ts, 1
  {
    if ts == [] then Ok([], b)
    else
      var (v, r) :- Parse(ts[0], b);
      var (vs, r') :- ParseFields(ts[1..], r);
      Ok([v] + vs, r')
  }

  function ParseArms(arms: Arms, tag: nat, b: bytes): (p: Parsed<Value>)
    ensures !p.More? ==> |p.rest| <= |b|
    ensures p.Bad? ==> p.error == ProtocolError
    decreases arms, 1
  {
    match arms
    case Reject => Bad(ProtocolError, b)
    case Otherwise(t) => Parse(t, b)
    case Arm(tags, t, more) => if tag in tags then Parse(t, b) else ParseArms(more, tag, b)
  }

  // ---------- Parse stability ----------

  lemma {:induction false} BitsFromStable(k: nat, c: byte, b: bytes, s: bytes)
    ensures StableUnder(BitsFrom(k, c, b), BitsFrom(k, c, b + s), s)
    decreases k
  {
    if k != 0 && (c == 48 || c == 49) && b != [] {
      assert (b + s)[1..] == b[1..] + s;
      BitsFromStable(k - 1, b[0], b[1..], s);
    }
  }

  /** A parse that did not run out of bytes ends the same way, having consumed the same, whatever arrives later. */
  lemma {:induction false} ParseStable(t: WireType, b: bytes, s: bytes)
    ensures StableUnder(Parse(t, b), Parse(t, b + s), s)
    decreases t, 0
  {
    match t
    case Natural => NatStable(b, s);
    case Hollerith => HStringStable(b, s);
    case Bits(len) =>
      FirstNonSpaceStable(b, s);
      var p := FirstNonSpace(b);
      if p.Ok? {
        BitsFromStable(len, p.value, p.rest, s);
      }
    case Array(elem) => ParseArrayStable(elem, b, s);
    case Record(fields) => ParseFieldsStable(fields, b, s);
    case Tagged(arms) =>
      NatStable(b, s);
      var tag := Nat(b);
      if tag.Ok? {
        ParseArmsStable(arms, tag.value, tag.rest, s);
      }
    case Converted(inner, conversion) => ParseStable(inner, b, s);
  }

  lemma {:induction false} ParseArrayStable(elem: WireType, b: bytes, s: bytes)
    ensures StableUnder(Parse(Array(elem), b), Parse(Array(elem), b + s), s)
    decreases elem, 2
  {
    NatStable(b, s);
    var length := Nat(b);
    if length.Ok? {
      FirstNonSpaceStable(length.rest, s);
      var left := FirstNonSpace(length.rest);
      if left.Ok? && left.value == OPEN_BRACE {
        ParseElemsStable(elem, length.value, left.rest, s);
        var elems := ParseElems(elem, length.value, left.rest);
        if elems.Ok? {
          FirstNonSpaceStable(elems.rest, s);
        }
      }
    }
  }

  lemma {:induction false} ParseElemsStable(t: WireType, n: nat, b: bytes, s: bytes)
    ensures StableUnder(ParseElems(t, n, b), ParseElems(t, n, b + s), s)
    decreases t, 1, n
  {
    if n > 0 {
      ParseStable(t, b, s);
      var p := Parse(t, b);
      if p.Ok? {
        ParseElemsStable(t, n - 1, p.rest, s);
      }
    }
  }

  lemma {:induction false} ParseFieldsStable(ts: seq<WireType>, b: bytes, s: bytes)
    ensures StableUnder(ParseFields(ts, b), ParseFields(ts, b + s), s)
    decreases ts, 1
  {
    if ts != [] {
      ParseStable(ts[0], b, s);
      var p := Parse(ts[0], b);
      if p.Ok? {
        ParseFieldsStable(ts[1..], p.rest, s);
      }
    }
  }

  lemma {:induction false} ParseArmsStable(arms: Arms, tag: nat, b: bytes, s: bytes)
    ensures StableUnder(ParseArms(arms, tag, b), ParseArms(arms, tag, b + s), s)
    decreases arms, 1
  {
    match arms
    case Reject =>
    case Otherwise(t) => ParseStable(t, b, s);
    case Arm(tags, t, more) =>
      if tag in tags {
        ParseStable(t, b, s);
      } else {
        ParseArmsStable(more, tag, b, s);
      }
  }

  // ---------- A parse consumes a prefix ----------

  lemma {:induction false} BitsFromSuffix(k: nat, c: byte, b: bytes)
    ensures BitsFrom(k, c, b).LeavesSuffixOf(b)
    decreases k
  {
    if k != 0 && (c == 48 || c == 49) && b != [] {
      BitsFromSuffix(k - 1, b[0], b[1..]);
    }
  }

  /** What a parser leaves is a suffix of what it was given: no byte is skipped or read twice. */
  lemma {:induction false} ParseSuffix(t: WireType, b: bytes)
    ensures Parse(t, b).LeavesSuffixOf(b)
    decreases t, 0
  {
    match t
    case Natural => NatAndNextSuffix(b);
    case Hollerith => HStringSuffix(b);
    case Bits(len) =>
      FirstNonSpaceSuffix(b);
      var p := FirstNonSpace(b);
      if p.Ok? {
        BitsFromSuffix(len, p.value, p.rest);
        SuffixThen(b, p, BitsFrom(len, p.value, p.rest));
      }
    case Array(elem) => ParseArraySuffix(elem, b);
    case Record(fields) => ParseFieldsSuffix(fields, b);
    case Tagged(arms) =>
      NatAndNextSuffix(b);
      var tag := Nat(b);
      if tag.Ok? {
        ParseArmsSuffix(arms, tag.value, tag.rest);
        SuffixThen(b, tag, ParseArms(arms, tag.value, tag.rest));
      }
    case Converted(inner, conversion) => ParseSuffix(inner, b);
  }

  lemma {:induction false} ParseArraySuffix(elem: WireType, b: bytes)
    ensures Parse(Array(elem), b).LeavesSuffixOf(b)
    decreases elem, 2
  {
    NatAndNextSuffix(b);
    var length := Nat(b);
    if length.Ok? {
      FirstNonSpaceSuffix(length.rest);
      var left := FirstNonSpace(length.rest);
      SuffixThen(b, length, left);
      if left.Ok? && left.value == OPEN_BRACE {
        ParseElemsSuffix(elem, length.value, left.rest);
        var elems := ParseElems(elem, length.value, left.rest);
        SuffixThen(b, left, elems);
        if elems.Ok? {
          FirstNonSpaceSuffix(elems.rest);
          SuffixThen(b, elems, FirstNonSpace(elems.rest));
        }
      }
    }
  }

  lemma {:induction false} ParseElemsSuffix(t: WireType, n: nat, b: bytes)
    ensures ParseElems(t, n, b).LeavesSuffixOf(b)
    decreases t, 1, n
  {
    if n > 0 {
      ParseSuffix(t, b);
      var p := Parse(t, b);
      if p.Ok? {
        ParseElemsSuffix(t, n - 1, p.rest);
        SuffixThen(b, p, ParseElems(t, n - 1, p.rest));
      }
    }
  }

  lemma {:induction false} ParseFieldsSuffix(ts: seq<WireType>, b: bytes)
    ensures ParseFields(ts, b).LeavesSuffixOf(b)
    decreases ts, 1
  {
    if ts != [] {
      ParseSuffix(ts[0], b);
      var p := Parse(ts[0], b);
      if p.Ok? {
        ParseFieldsSuffix(ts[1..], p.rest);
        SuffixThen(b, p, ParseFields(ts[1..], p.rest));
      }
    }
  }

  lemma {:induction false} ParseArmsSuffix(arms: Arms, tag: nat, b: bytes)
    ensures ParseArms(arms, tag, b).LeavesSuffixOf(b)
    decreases arms, 1
  {
    match arms
    case Reject =>
    case Otherwise(t) => ParseSuffix(t, b);
    case Arm(tags, t, more) =>
      if tag in tags {
        ParseSuffix(t, b);
      } else {
        ParseArmsSuffix(more, tag, b);
      }
  }

  // ---------- Parsed values have the type they were parsed at ----------

  predicate HasType(v: Value, t: WireType)
    decreases t, 0
  {
    match t
    case Natural => v.Number?
    case Hollerith => v.Str?
    case Bits(len) => v.BitList? && |v.bits| == len
    case Array(elem) => v.Items? && forall i :: 0 <= i < |v.elems| ==> HasType(v.elems[i], elem)
    case Record(fields) => v.Fields? && HaveTypes(v.parts, fields)
    case Tagged(arms) => v.Variant? && HasArmType(v.payload, arms, v.tag)
    case Converted(_, CookMiscInfo) => v.Misc? && SendableMisc(v.cooked)
    case Converted(_, BuildTextMapping) => v.TextMap? && v.mapping.dict == Induced(v.mapping.entries)
  }

  predicate HaveTypes(vs: seq<Value>, ts: seq<WireType>)
    decreases ts, 1
  {
    |vs| == |ts| && (ts == [] || (HasType(vs[0], ts[0]) && HaveTypes(vs[1..], ts[1..])))
  }

  predicate HasArmType(v: Value, arms: Arms, tag: nat)
    decreases arms, 1
  {
    match arms
    case Reject => false
    case Otherwise(t) => HasType(v, t)
    case Arm(tags, t, more) => if tag in tags then HasType(v, t) else HasArmType(v, more, tag)
  }

  /** A record has the type of its fields, field by field. */
  lemma {:induction false} HaveTypesPointwise(vs: seq<Value>, ts: seq<WireType>)
    ensures HaveTypes(vs, ts) <==> |vs| == |ts| && forall i :: 0 <= i < |ts| ==> HasType(vs[i], ts[i])
    decreases ts, 1
  {
    if |vs| == |ts| && ts != [] {
      HaveTypesPointwise(vs[1..], ts[1..]);
      assert forall i :: 0 < i < |ts| ==> vs[i] == vs[1..][i - 1] && ts[i] == ts[1..][i - 1];
    }
  }

  /** Parsing at type t yields a value of type t. */
  lemma {:induction false} ParseTyped(t: WireType, b: bytes)
    ensures Parse(t, b).Ok? ==> HasType(Parse(t, b).value, t)
    decreases t, 0
  {
    match t
    case Natural =>
    case Hollerith =>
    case Bits(len) =>
    case Array(elem) =>
      var length := Nat(b);
      if length.Ok? {
        var left := FirstNonSpace(length.rest);
        if left.Ok? {
          ParseElemsTyped(elem, length.value, left.rest);
        }
      }
    case Record(fields) => ParseFieldsTyped(fields, b);
    case Tagged(arms) =>
      var tag := Nat(b);
      if tag.Ok? {
        ParseArmsTyped(arms, tag.value, tag.rest);
      }
    case Converted(inner, conversion) =>
      var p := Parse(inner, b);
      if p.Ok? && conversion.CookMiscInfo? {
        CookSendable(if p.value.Items? then ItemsOf(p.value.elems) else []);
      }
  }

  lemma {:induction false} ParseElemsTyped(t: WireType, n: nat, b: bytes)
    ensures var p := ParseElems(t, n, b);
            p.Ok? ==> |p.value| == n && forall i :: 0 <= i < n ==> HasType(p.value[i], t)
    decreases t, 1, n
  {
    if n > 0 {
      ParseTyped(t, b);
      var p := Parse(t, b);
      if p.Ok? {
        ParseElemsTyped(t, n - 1, p.rest);
      }
    }
  }

  lemma {:induction false} ParseFieldsTyped(ts: seq<WireType>, b: bytes)
    ensures var p := ParseFields(ts, b);
            p.Ok? ==> HaveTypes(p.value, ts)
    decreases ts, 1
  {
    if ts != [] {
      ParseTyped(ts[0], b);
      var p := Parse(ts[0], b);
      if p.Ok? {
        ParseFieldsTyped(ts[1..], p.rest);
        var q := ParseFields(ts[1..], p.rest);
        if q.Ok? {
          assert ([p.value] + q.value)[1..] == q.value;
        }
      }
    }
  }

  lemma {:induction false} ParseArmsTyped(arms: Arms, tag: nat, b: bytes)
    ensures var p := ParseArms(arms, tag, b);
            p.Ok? ==> HasArmType(p.value, arms, tag)
    decreases arms, 1
  {
    match arms
    case Reject =>
    case Otherwise(t) => ParseTyped(t, b);
    case Arm(tags, t, more) =>
      if tag in tags {
        ParseTyped(t, b);
      } else {
        ParseArmsTyped(more, tag, b);
      }
  }

  // ---------- Text mappings ----------

  /** `dict` is the map induced by `list`: a key is present exactly when listed, and its last entry wins. */
  lemma {:induction false} InducedIsLastEntry(entries: seq<(nat, nat)>, key: nat)
    ensures key in Induced(entries) <==> exists i :: 0 <= i < |entries| && entries[i].0 == key
    ensures key in Induced(entries) ==>
              exists i :: 0 <= i < |entries| && entries[i] == (key, Induced(entries)[key]) &&
                          forall j :: i < j < |entries| ==> entries[j].0 != key
  {
    if entries != [] {
      var n := |entries| - 1;
      var before := entries[..n];
      InducedIsLastEntry(before, key);
      assert forall i :: 0 <= i < n ==> entries[i] == before[i];
      assert entries[n] == (entries[n].0, entries[n].1);
    }
  }

  /** Local numbers first, first + 1, ... as the sparse form spells them out. */
  function SparseOf(first: nat, texts: seq<nat>): Value {
    Items(seq(|texts|, i requires 0 <= i < |texts| => Fields([Number(first + i), Number(texts[i])])))
  }

  function DenseOf(first: nat, texts: seq<nat>): Value {
    Fields([Number(first), Items(seq(|texts|, i requires 0 <= i < |texts| => Number(texts[i])))])
  }
}
