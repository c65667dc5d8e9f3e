/** The parse methods as they run: byte by byte against a receive buffer, whichever of the two it is. */
module Reader {
  import opened Protocol
  import opened MiscInfo
  import opened Options
  import opened Wire
  import opened Buffers

  /** The buffer a parse method is handed; the methods only ever ask it for characters and strings. */
  datatype Source = Pull(sync: ReceiveBuffer) | Retry(aio: AioReceiveBuffer) {
    ghost function Repr(): set<object> {
      match this
      case Pull(b) => {b, b.socket}
      case Retry(b) => {b}
    }

    ghost predicate Valid()
      reads Repr()
    {
      match this
      case Pull(b) => b.Valid()
      case Retry(b) => b.Valid()
    }

    /** The bytes not yet read. */
    ghost function Contents(): bytes
      requires Valid()
      reads Repr()
    {
      match this
      case Pull(b) => b.Contents()
      case Retry(b) => b.Current()
    }

    /** What reading leaves alone: the bytes sent on the socket, or the bytes held by the buffer. */
    ghost function Fixed(): bytes
      reads Repr()
    {
      match this
      case Pull(b) => b.socket.sent
      case Retry(b) => b.rb
    }

    method ReceiveString(n: nat) returns (r: Result<bytes>)
      requires Valid()
      modifies Repr()
      ensures Valid() && Fixed() == old(Fixed())
      ensures Agrees(r, Exactly(n, old(Contents())), old(Contents()), Contents())
    {
      var s: Option<bytes>;
      match this {
        case Pull(b) => s := b.ReceiveString(n);
        case Retry(b) => s := b.ReceiveString(n);
      }
      return if s.Some? then Done(s.value) else Starved;
    }

    method ReceiveChar() returns (r: Result<byte>)
      requires Valid()
      modifies Repr()
      ensures Valid() && Fixed() == old(Fixed())
      ensures Agrees(r, NextByte(old(Contents())), old(Contents()), Contents())
    {
      match this {
        case Pull(b) =>
          var c := b.ReceiveChar();
          return if c.Some? then Done(c.value) else Starved;
        case Retry(b) =>
          var s := b.ReceiveString(1);
          return if s.Some? then Done(s.value[0]) else Starved;
      }
    }
  }

  /** Starved: NotEnoughDataInBufferError or ReceiveError was raised. */
  datatype Result<+T> = Done(value: T) | Raised(error: WireError) | Starved {
    predicate IsFailure() {
      !Done?
    }

    function PropagateFailure<U>(): Result<U>
      requires IsFailure()
    {
      if Raised? then Raised(error) else Starved
    }

    function Extract(): T
      requires Done?
    {
      value
    }
  }

  /** `r` is the outcome `p`, and `now` are the bytes it leaves of `before`. */
  ghost predicate Agrees<T>(r: Result<T>, p: Parsed<T>, before: bytes, now: bytes) {
    match p
    case Ok(v, rest) => r == Done(v) && now == rest
    case Bad(e, rest) => r == Raised(e) && now == rest
    case More => r == Starved && |now| <= |before|
  }

  function NextByte(b: bytes): Parsed<byte> {
    if b == [] then More else Ok(b[0], b[1..])
  }

  /** `done` in front of what is still parsed. */
  function Onto<T>(done: seq<T>, p: Parsed<seq<T>>): Parsed<seq<T>> {
    match p
    case Ok(v, r) => Ok(done + v, r)
    case Bad(e, r) => Bad(e, r)
    case More => More
  }

  lemma OntoOne<T>(done: seq<T>, one: T, p: Parsed<seq<T>>)
    ensures Onto(done + [one], p) == Onto(done, Onto([one], p))
  {
    if p.Ok? {
      assert done + [one] + p.value == done + ([one] + p.value);
    }
  }

  lemma OntoNothing<T>(done: seq<T>, p: Parsed<seq<T>>)
    ensures done == [] ==> Onto(done, p) == p
  {
    if p.Ok? && done == [] {
      assert done + p.value == p.value;
    }
  }

  method ReadFirstNonWs(src: Source) returns (r: Result<byte>)
    requires src.Valid()
    modifies src.Repr()
    ensures src.Valid() && src.Fixed() == old(src.Fixed())
    ensures Agrees(r, FirstNonSpace(old(src.Contents())), old(src.Contents()), src.Contents())
  {
    ghost var all, b := FirstNonSpace(src.Contents()), src.Contents();
    var c :- src.ReceiveChar();
    b := b[1..];
    while IsSpace(c)
      invariant src.Valid() && src.Fixed() == old(src.Fixed()) && src.Contents() == b
      invariant |b| < |old(src.Contents())|
      invariant all == if IsSpace(c) then FirstNonSpace(b) else Ok(c, b)
      decreases |b|
    {
      c :- src.ReceiveChar();
      b := b[1..];
    }
    return Done(c);
  }

  method ReadIntAndNext(src: Source) returns (r: Result<(nat, byte)>)
    requires src.Valid()
    modifies src.Repr()
    ensures src.Valid() && src.Fixed() == old(src.Fixed())
    ensures Agrees(r, NatAndNext(old(src.Contents())), old(src.Contents()), src.Contents())
  {
    var c :- ReadFirstNonWs(src);
    r := ReadDigits(c, src);
  }

  /** The loop of read_int_and_next. */
  method ReadDigits(first: byte, src: Source) returns (r: Result<(nat, byte)>)
    requires src.Valid()
    modifies src.Repr()
    ensures src.Valid() && src.Fixed() == old(src.Fixed())
    ensures Agrees(r, DigitsFrom(0, first, old(src.Contents())), old(src.Contents()), src.Contents())
  {
    ghost var b := src.Contents();
    ghost var all := DigitsFrom(0, first, b);
    var c, n: nat := first, 0;
    while IsDigit(c)
      invariant src.Valid() && src.Fixed() == old(src.Fixed()) && src.Contents() == b
      invariant |b| <= |old(src.Contents())|
      invariant all == DigitsFrom(n, c, b)
      decreases |b|
    {
      n := 10 * n + (c as int - 48);
      c :- src.ReceiveChar();
      b := b[1..];
    }
    return Done((n, c));
  }

  method ReadInt(src: Source) returns (r: Result<nat>)
    requires src.Valid()
    modifies src.Repr()
    ensures src.Valid() && src.Fixed() == old(src.Fixed())
    ensures Agrees(r, Nat(old(src.Contents())), old(src.Contents()), src.Contents())
  {
    var nc :- ReadIntAndNext(src);
    return Done(nc.0);
  }

  method ReadString(src: Source) returns (r: Result<bytes>)
    requires src.Valid()
    modifies src.Repr()
    ensures src.Valid() && src.Fixed() == old(src.Fixed())
    ensures Agrees(r, HString(old(src.Contents())), old(src.Contents()), src.Contents())
  {
    var nc :- ReadIntAndNext(src);
    if nc.1 != LETTER_H {
      return Raised(ProtocolError);
    }
    r := src.ReceiveString(nc.0);
  }

  /** BitsFrom, appending to the bits that are done. */
  ghost function BitsOnto(done: seq<bool>, k: nat, c: byte, b: bytes): Parsed<seq<bool>>
    decreases k
  {
    if k == 0 then Ok(done, b)
    else if c != 48 && c != 49 then Bad(ProtocolError, b)
    else if b == [] then More
    else BitsOnto(done + [c == 49], k - 1, b[0], b[1..])
  }

  lemma {:induction false} BitsOntoDone(done: seq<bool>, k: nat, c: byte, b: bytes)
    ensures BitsOnto(done, k, c, b) == Onto(done, BitsFrom(k, c, b))
    decreases k
  {
    if k == 0 {
      assert done + [] == done;
    } else if (c == 48 || c == 49) && b != [] {
      var rest := BitsFrom(k - 1, b[0], b[1..]);
      assert BitsFrom(k, c, b) == Onto([c == 49], rest);
      BitsOntoDone(done + [c == 49], k - 1, b[0], b[1..]);
      OntoOne(done, c == 49, rest);
    }
  }

  lemma BitsOntoNext(done: seq<bool>, k: nat, c: byte, b: bytes)
    requires 0 < k && (c == 48 || c == 49)
    ensures BitsOnto(done, k, c, b) == if b == [] then More else BitsOnto(done + [c == 49], k - 1, b[0], b[1..])
  {
  }

  /** The loop of Bitstring.parse, with its first byte in hand. */
  method ReadBits(len: nat, first: byte, src: Source) returns (r: Result<seq<bool>>)
    requires src.Valid()
    modifies src.Repr()
    ensures src.Valid() && src.Fixed() == old(src.Fixed())
    ensures Agrees(r, BitsFrom(len, first, old(src.Contents())), old(src.Contents()), src.Contents())
  {
    ghost var b := src.Contents();
    ghost var all := BitsFrom(len, first, b);
    var c, bits: seq<bool> := first, [];
    BitsOntoDone(bits, len, first, b);
    OntoNothing(bits, all);
    for i := 0 to len
      invariant src.Valid() && src.Fixed() == old(src.Fixed()) && src.Contents() == b
      invariant |b| <= |old(src.Contents())|
      invariant all == BitsOnto(bits, len - i, c, b)
    {
      if c != 48 && c != 49 {
        return Raised(ProtocolError);
      }
      BitsOntoNext(bits, len - i, c, b);
      bits := bits + [c == 49];
      c :- src.ReceiveChar();
      b := b[1..];
    }
    return Done(bits);
  }

  method ReadValue(t: WireType, src: Source) returns (r: Result<Value>)
    requires src.Valid()
    modifies src.Repr()
    ensures src.Valid() && src.Fixed() == old(src.Fixed())
    ensures Agrees(r, Parse(t, old(src.Contents())), old(src.Contents()), src.Contents())
    decreases t, 0
  {
    match t {
      case Natural =>
        var n :- ReadInt(src);
        return Done(Number(n));
      case Hollerith =>
        var s :- ReadString(src);
        return Done(Str(s));
      case Bits(len) =>
        var c :- ReadFirstNonWs(src);
        var bits :- ReadBits(len, c, src);
        return Done(BitList(bits));
      case Array(elem) =>
        r := ReadArray(elem, src);
      case Record(fields) =>
        var parts :- ReadFields(fields, src);
        return Done(Fields(parts));
      case Tagged(arms) =>
        var tag :- ReadInt(src);
        var payload :- ReadArms(arms, tag, src);
        return Done(Variant(tag, payload));
      case Converted(inner, conversion) =>
        var v :- ReadValue(inner, src);
        r := ApplyConversion(conversion, v);
    }
  }

  method ReadArray(elem: WireType, src: Source) returns (r: Result<Value>)
    requires src.Valid()
    modifies src.Repr()
    ensures src.Valid() && src.Fixed() == old(src.Fixed())
    ensures Agrees(r, Parse(Array(elem), old(src.Contents())), old(src.Contents()), src.Contents())
    decreases elem, 2
  {
    var length :- ReadInt(src);
    var left :- ReadFirstNonWs(src);
    if left == STAR {
      return Done(Items([]));
    } else if left != OPEN_BRACE {
      return Raised(ProtocolError);
    }
    var elems :- ReadElems(elem, length, src);
    var right :- ReadFirstNonWs(src);
    if right != CLOSE_BRACE {
      return Raised(ProtocolError);
    }
    return Done(Items(elems));
  }

  /** ParseElems, appending to the elements that are done. */
  ghost function ElemsOnto(done: seq<Value>, t: WireType, k: nat, b: bytes): Parsed<seq<Value>>
    decreases k
  {
    if k == 0 then Ok(done, b)
    else
      var (v, r) :- Parse(t, b);
      ElemsOnto(done + [v], t, k - 1, r)
  }

  lemma {:induction false} ElemsOntoDone(done: seq<Value>, t: WireType, k: nat, b: bytes)
    ensures ElemsOnto(done, t, k, b) == Onto(done, ParseElems(t, k, b))
    decreases k
  {
    var v := Parse(t, b);
    if k == 0 {
      assert done + [] == done;
    } else if v.Ok? {
      var rest := ParseElems(t, k - 1, v.rest);
      assert ParseElems(t, k, b) == Onto([v.value], rest);
      ElemsOntoDone(done + [v.value], t, k - 1, v.rest);
      OntoOne(done, v.value, rest);
    }
  }

  /** One turn of the loop: an element is appended, or its failure is that of the whole list. */
  lemma ElemsOntoNext(done: seq<Value>, t: WireType, k: nat, el: Result<Value>, b: bytes, b': bytes)
    requires 0 < k && Agrees(el, Parse(t, b), b, b')
    ensures |b'| <= |b|
    ensures el.Done? ==> ElemsOnto(done, t, k, b) == ElemsOnto(done + [el.value], t, k - 1, b')
    ensures el.Raised? ==> ElemsOnto(done, t, k, b) == Bad(el.error, b')
    ensures el.Starved? ==> ElemsOnto(done, t, k, b) == More
  {
  }

  /** The loop of Array.parse. */
  method ReadElems(t: WireType, n: nat, src: Source) returns (r: Result<seq<Value>>)
    requires src.Valid()
    modifies src.Repr()
    ensures src.Valid() && src.Fixed() == old(src.Fixed())
    ensures Agrees(r, ParseElems(t, n, old(src.Contents())), old(src.Contents()), src.Contents())
    decreases t, 1
  {
    var elems: seq<Value> := [];
    ghost var b := src.Contents();
    ghost var all := ParseElems(t, n, b);
    ElemsOntoDone(elems, t, n, b);
    OntoNothing(elems, all);
    for i := 0 to n
      invariant src.Valid() && src.Fixed() == old(src.Fixed()) && src.Contents() == b
      invariant |b| <= |old(src.Contents())|
      invariant all == ElemsOnto(elems, t, n - i, b)
    {
      var read := ReadValue(t, src);
      ElemsOntoNext(elems, t, n - i, read, b, src.Contents());
      b := src.Contents();
      var el :- read;
      elems := elems + [el];
    }
    return Done(elems);
  }

  /** The fields of a record, in the order in which its parse method assigns them. */
  method ReadFields(ts: seq<WireType>, src: Source) returns (r: Result<seq<Value>>)
    requires src.Valid()
    modifies src.Repr()
    ensures src.Valid() && src.Fixed() == old(src.Fixed())
    ensures Agrees(r, ParseFields(ts, old(src.Contents())), old(src.Contents()), src.Contents())
    decreases ts, 1
  {
    if ts == [] {
      return Done([]);
    }
    var v :- ReadValue(ts[0], src);
    var vs :- ReadFields(ts[1..], src);
    return Done([v] + vs);
  }

  method ReadArms(arms: Arms, tag: nat, src: Source) returns (r: Result<Value>)
    requires src.Valid()
    modifies src.Repr()
    ensures src.Valid() && src.Fixed() == old(src.Fixed())
    ensures Agrees(r, ParseArms(arms, tag, old(src.Contents())), old(src.Contents()), src.Contents())
    decreases arms, 1
  {
    match arms {
      case Reject => return Raised(ProtocolError);
      case Otherwise(t) => r := ReadValue(t, src);
      case Arm(tags, t, more) =>
        if tag in tags {
          r := ReadValue(t, src);
        } else {
          r := ReadArms(more, tag, src);
        }
    }
  }

  method ApplyConversion(conversion: Conversion, v: Value) returns (r: Result<Value>)
    ensures r == var c := Convert(conversion, v); if c.Some? then Done(c.value) else Raised(ProtocolError)
  {
    match conversion {
      case CookMiscInfo =>
        var cooked := CookLoop(if v.Items? then ItemsOf(v.elems) else []);
        return if cooked.Some? then Done(Misc(cooked.value)) else Raised(ProtocolError);
      case BuildTextMapping =>
        if v.Fields? && |v.parts| == 4 && v.parts[3].Variant? {
          var entries, dict := FillMapping(v.parts[3].payload);
          return Done(TextMap(Mapping(NumberOf(v.parts[0]), NumberOf(v.parts[1]), NumberOf(v.parts[2]),
                                      entries, dict)));
        }
        return Done(TextMap(Mapping(0, 0, 0, [], map[])));
    }
  }

  /** The loops of TextMapping.parse that fill `list` and `dict`. */
  method FillMapping(block: Value) returns (list: seq<(nat, nat)>, dict: map<nat, nat>)
    ensures list == EntriesOf(block) && dict == Induced(list)
  {
    list, dict := [], map[];
    if block.Items? {
      list, dict := FillSparse(block.elems);
    } else if block.Fields? && |block.parts| == 2 && block.parts[1].Items? {
      list, dict := FillDense(NumberOf(block.parts[0]), block.parts[1].elems);
    }
  }

  lemma InducedSnoc(all: seq<(nat, nat)>, i: nat)
    requires i < |all|
    ensures all[..i + 1] == all[..i] + [all[i]]
    ensures Induced(all[..i + 1]) == Induced(all[..i])[all[i].0 := all[i].1]
  {
    assert all[..i + 1][..i] == all[..i];
  }

  method FillSparse(pairs: seq<Value>) returns (list: seq<(nat, nat)>, dict: map<nat, nat>)
    ensures list == Pairs(pairs) && dict == Induced(list)
  {
    list, dict := [], map[];
    ghost var all := Pairs(pairs);
    for i := 0 to |pairs|
      invariant list == all[..i] && dict == Induced(all[..i])
    {
      InducedSnoc(all, i);
      var tnp := pairs[i];
      var pair := if tnp.Fields? && |tnp.parts| == 2 then (NumberOf(tnp.parts[0]), NumberOf(tnp.parts[1])) else (0, 0);
      dict := dict[pair.0 := pair.1];
      list := list + [pair];
    }
  }

  method FillDense(first: nat, texts: seq<Value>) returns (list: seq<(nat, nat)>, dict: map<nat, nat>)
    ensures list == Consecutive(first, texts) && dict == Induced(list)
  {
    list, dict := [], map[];
    var localNumber := first;
    ghost var all := Consecutive(first, texts);
    for i := 0 to |texts|
      invariant localNumber == first + i
      invariant list == all[..i] && dict == Induced(all[..i])
    {
      InducedSnoc(all, i);
      dict := dict[localNumber := NumberOf(texts[i])];
      list := list + [(localNumber, NumberOf(texts[i]))];
      localNumber := localNumber + 1;
    }
  }
}
