/** The user area: named blocks, kept as Hollerith strings inside a Hollerith string (utils.py). */
module UserArea {
  import opened Protocol
  import opened Options

  /** parse_hollerith_string.  Nothing: the empty input.  Invalid: an exception.  Hangs: the loop that skips white
      space runs past the end and never stops, because the empty slice found there counts as white space. */
  datatype Hollerith = Nothing | Content(content: bytes, rest: bytes) | Invalid | Hangs

  function SkipSpaces(h: bytes): (r: bytes)
    ensures |r| <= |h|
  {
    if h != [] && IsSpace(h[0]) then SkipSpaces(h[1..]) else h
  }

  /** The digits and what they count; the empty slice behind a number that ends the input raises an exception. */
  function Counted(n: nat, s: bytes): (r: Hollerith)
    ensures r.Content? ==> |r.rest| < |s|
    ensures r.Content? || r.Invalid?
    decreases |s|
  {
    if s == [] then Invalid
    else if IsDigit(s[0]) then Counted(10 * n + (s[0] as int - 48), s[1..])
    else if s[0] != LETTER_H then Invalid
    else
      var k := if n < |s| - 1 then n else |s| - 1;
      Content(s[1..1 + k], s[1 + k..])
  }

  function ParseHollerith(h: bytes): (r: Hollerith)
    ensures r.Content? ==> |r.rest| < |h|
  {
    if h == [] then Nothing
    else
      var s := SkipSpaces(h);
      if s == [] then Hangs else Counted(0, s)
  }

  /** The parser fails to stop exactly on a non-empty input of nothing but white space. */
  lemma {:induction false} HangsOnlyOnSpace(h: bytes)
    ensures ParseHollerith(h).Hangs? <==> h != [] && forall i :: 0 <= i < |h| ==> IsSpace(h[i])
  {
    SkipsAll(h);
  }

  /** Where the loop that skips white space stands after k rounds, None once it has stopped.  The slice it looks at is
      empty behind the end, and the empty slice counts as white space. */
  function After(h: bytes, k: nat): Option<nat> {
    if k == 0 then Some(0)
    else
      var i := After(h, k - 1);
      if i.None? || (i.value < |h| && !IsSpace(h[i.value])) then None else Some(i.value + 1)
  }

  lemma {:induction false} AfterMeans(h: bytes, k: nat)
    ensures After(h, k) == if forall i :: 0 <= i < k && i < |h| ==> IsSpace(h[i]) then Some(k) else None
  {
    if k > 0 {
      AfterMeans(h, k - 1);
    }
  }

  /** The outcome Hangs is that of a loop which has not stopped after any number of rounds. */
  lemma HangsForEver(h: bytes)
    ensures ParseHollerith(h).Hangs? <==> h != [] && forall k: nat :: After(h, k).Some?
  {
    HangsOnlyOnSpace(h);
    if forall i :: 0 <= i < |h| ==> IsSpace(h[i]) {
      forall k: nat ensures After(h, k).Some? {
        AfterMeans(h, k);
      }
    } else {
      var i :| 0 <= i < |h| && !IsSpace(h[i]);
      AfterMeans(h, i + 1);
      assert After(h, i + 1).None?;
    }
  }

  lemma {:induction false} SkipsAll(h: bytes)
    ensures SkipSpaces(h) == [] <==> forall i :: 0 <= i < |h| ==> IsSpace(h[i])
  {
    if h != [] && IsSpace(h[0]) {
      SkipsAll(h[1..]);
      assert forall i :: 1 <= i < |h| ==> h[i] == h[1..][i - 1];
    }
  }

  /** Where the wire parser reads a string, this parser reads the same one. */
  lemma AgreesWithWire(h: bytes)
    requires HString(h).Ok?
    ensures ParseHollerith(h) == Content(HString(h).value, HString(h).rest)
  {
    SpacesAgree(h);
    var c := FirstNonSpace(h);
    var s := SkipSpaces(h);
    DigitsAgree(0, s);
    assert c == Ok(s[0], s[1..]);
    var nc := NatAndNext(h);
    var body := nc.rest;
    assert body[..nc.value.0] == HString(h).value;
  }

  lemma {:induction false} SpacesAgree(h: bytes)
    ensures var s := SkipSpaces(h); FirstNonSpace(h) == if s == [] then More else Ok(s[0], s[1..])
  {
    if h != [] && IsSpace(h[0]) {
      SpacesAgree(h[1..]);
    }
  }

  lemma {:induction false} DigitsAgree(n: nat, s: bytes)
    requires s != [] && DigitsFrom(n, s[0], s[1..]).Ok?
    ensures var p := DigitsFrom(n, s[0], s[1..]); Counted(n, s) == Counted(p.value.0, [p.value.1] + p.rest)
    decreases |s|
  {
    if IsDigit(s[0]) {
      DigitsAgree(10 * n + (s[0] as int - 48), s[1..]);
    } else {
      assert s == [s[0]] + s[1..];
    }
  }

  // ---------- What it makes of other inputs ----------

  lemma {:induction false} CountedDigits(n: nat, s: bytes, after: bytes)
    requires after != [] && s == Decimal(n) + after
    ensures Counted(0, s) == Counted(n, after)
    decreases n
  {
    var last := Digit(n % 10);
    if n < 10 {
      assert s == [last] + after && s[1..] == after;
    } else {
      var next := [last] + after;
      assert s == Decimal(n / 10) + next;
      CountedDigits(n / 10, s, next);
      assert next[0] == last && next[1..] == after;
      assert 10 * (n / 10) + n % 10 == n;
    }
  }

  lemma BehindFirst(c: byte, s: bytes, k: nat)
    requires k <= |s|
    ensures ([c] + s)[1..1 + k] == s[..k] && ([c] + s)[1 + k..] == s[k..]
  {
  }

  lemma Clipped(n: nat, s: bytes)
    ensures Counted(n, [72] + s) == if n <= |s| then Content(s[..n], s[n..]) else Content(s, [])
  {
    var h, k := [72] + s, if n <= |s| then n else |s|;
    BehindFirst(72, s, k);
    assert h[0] == 72;
    assert Counted(n, h) == Content(h[1..1 + k], h[1 + k..]);
    assert s[..|s|] == s && s[|s|..] == [];
  }

  /** Behind its length and the H, a string is what there is, up to that length, without complaint. */
  lemma ContentIsClipped(n: nat, s: bytes)
    ensures ParseHollerith(Decimal(n) + ([72] + s)) ==
            if n <= |s| then Content(s[..n], s[n..]) else Content(s, [])
  {
    var h := Decimal(n) + ([72] + s);
    assert SkipSpaces(h) == h;
    CountedDigits(n, h, [72] + s);
    Clipped(n, s);
  }

  /** A length that ends the input, or is followed by anything but a digit or an H, raises an exception; the empty input
      does not, and holds nothing. */
  lemma OthersRaise(n: nat, c: byte, after: bytes)
    requires c != 72 && !IsDigit(c)
    ensures ParseHollerith(Decimal(n) + ([c] + after)) == Invalid && ParseHollerith([]) == Nothing
    ensures !IsSpace(c) ==> ParseHollerith([c] + after) == Invalid
  {
    var h := Decimal(n) + ([c] + after);
    assert SkipSpaces(h) == h;
    CountedDigits(n, h, [c] + after);
  }

  lemma {:induction false} DigitsAloneCounted(m: nat, digits: bytes)
    requires forall i :: 0 <= i < |digits| ==> IsDigit(digits[i])
    ensures Counted(m, digits) == Invalid
    decreases |digits|
  {
    if digits != [] {
      DigitsAloneCounted(10 * m + (digits[0] as int - 48), digits[1..]);
    }
  }

  lemma DigitsAloneRaise(digits: bytes)
    requires digits != [] && forall i :: 0 <= i < |digits| ==> IsDigit(digits[i])
    ensures ParseHollerith(digits) == Invalid
  {
    assert SkipSpaces(digits) == digits;
    DigitsAloneCounted(0, digits);
  }

  method ParseHollerithString(h: bytes) returns (r: Hollerith)
    ensures r == ParseHollerith(h)
  {
    if h == [] {
      return Nothing;
    }
    var i := 0;
    while i < |h| && IsSpace(h[i])
      invariant i <= |h| && SkipSpaces(h) == SkipSpaces(h[i..])
    {
      assert h[i..][1..] == h[i + 1..];
      i := i + 1;
    }
    if i == |h| {
      return Hangs;
    }
    r := CountAndTake(h, i);
  }

  /** The second half of the parser, from the first byte that is not white space. */
  method CountAndTake(h: bytes, start: nat) returns (r: Hollerith)
    requires start < |h|
    ensures r == Counted(0, h[start..])
  {
    var i, length: nat := start, 0;
    while i < |h| && IsDigit(h[i])
      invariant i <= |h| && Counted(0, h[start..]) == Counted(length, h[i..])
    {
      assert h[i..][1..] == h[i + 1..];
      length := length * 10 + (h[i] as int - 48);
      i := i + 1;
    }
    if i == |h| || h[i] != LETTER_H {
      return Invalid;
    }
    ghost var tail := h[i..];
    i := i + 1;
    var end := if i + length <= |h| then i + length else |h|;
    assert tail[1..1 + (end - i)] == h[i..end] && tail[1 + (end - i)..] == h[end..];
    return Content(h[i..end], h[end..]);
  }

  // ---------- Decoding ----------

  datatype Decoded<+T> = Done(value: T) | Raised | NeverEnds {
    predicate IsFailure() {
      !Done?
    }

    function PropagateFailure<U>(): Decoded<U>
      requires IsFailure()
    {
      if Raised? then Raised else NeverEnds
    }

    function Extract(): T
      requires Done?
    {
      value
    }
  }

  /** The content, None on an empty input. */
  function ContentOf(r: Hollerith): Decoded<Option<bytes>> {
    match r
    case Nothing => Done(None)
    case Content(c, _) => Done(Some(c))
    case Invalid => Raised
    case Hangs => NeverEnds
  }

  function RestOf(r: Hollerith): bytes {
    if r.Content? then r.rest else []
  }

  function Before(names: seq<bytes>, more: Decoded<seq<bytes>>): Decoded<seq<bytes>> {
    if more.Done? then Done(names + more.value) else more
  }

  /** The block names: they end with the input, or at an empty name. */
  function NamesIn(h: bytes): Decoded<seq<bytes>>
    decreases |h|
  {
    var r := ParseHollerith(h);
    var name :- ContentOf(r);
    if name == None || name == Some([]) then Done([])
    else
      var more :- NamesIn(r.rest);
      Done([name.value] + more)
  }

  type Blocks = map<bytes, Option<bytes>>

  /** The blocks, one for each name in turn. */
  function BlocksIn(names: seq<bytes>, h: bytes, found: Blocks): Decoded<Blocks>
    decreases |names|
  {
    if names == [] then Done(found)
    else
      var r := ParseHollerith(h);
      var block :- ContentOf(r);
      BlocksIn(names[1..], RestOf(r), found[names[0] := block])
  }

  function Decode(area: bytes): Decoded<Blocks> {
    var r := ParseHollerith(area);
    var nameList :- ContentOf(r);
    var names :- NamesIn(if nameList.Some? then nameList.value else []);
    BlocksIn(names, RestOf(r), map[])
  }

  method DecodeUserArea(area: bytes) returns (result: Decoded<Blocks>)
    ensures result == Decode(area)
  {
    var outer := ParseHollerithString(area);
    var nameList :- ContentOf(outer);
    var names :- ParseBlockNames(if nameList.Some? then nameList.value else []);
    var h := RestOf(outer);
    var blocks: Blocks := map[];
    ghost var all := BlocksIn(names, h, blocks);
    for i := 0 to |names|
      invariant all == BlocksIn(names[i..], h, blocks)
    {
      assert names[i..][1..] == names[i + 1..];
      var r := ParseHollerithString(h);
      var block :- ContentOf(r);
      blocks := blocks[names[i] := block];
      h := RestOf(r);
    }
    return Done(blocks);
  }

  method ParseBlockNames(h: bytes) returns (result: Decoded<seq<bytes>>)
    ensures result == NamesIn(h)
  {
    var names: seq<bytes>, left := [], h;
    assert NamesIn(h).Done? ==> [] + NamesIn(h).value == NamesIn(h).value;
    while true
      invariant NamesIn(h) == Before(names, NamesIn(left))
      decreases |left|
    {
      var r := ParseHollerithString(left);
      var name :- ContentOf(r);
      if name == None || name == Some([]) {
        assert names + [] == names;
        return Done(names);
      }
      var later := NamesIn(r.rest);
      if later.Done? {
        assert names + ([name.value] + later.value) == names + [name.value] + later.value;
      }
      names := names + [name.value];
      left := r.rest;
    }
  }

  // ---------- Encoding ----------

  /** A space and a Hollerith string for each item. */
  function Spelled(items: seq<bytes>): bytes {
    if items == [] then [] else [SPACE] + ToHString(items[0]) + Spelled(items[1..])
  }

  function ContentsOf(names: seq<bytes>, blocks: map<bytes, bytes>): (r: seq<bytes>)
    requires forall n :: n in names ==> n in blocks
    ensures |r| == |names|
  {
    seq(|names|, i requires 0 <= i < |names| => blocks[names[i]])
  }

  /** The order of byte strings. */
  predicate Less(a: bytes, b: bytes) {
    b != [] && (a == [] || a[0] < b[0] || (a[0] == b[0] && Less(a[1..], b[1..])))
  }

  /** One string comes before another if it is the beginning of it, or where they first differ its byte is smaller. */
  lemma {:induction false} LessMeans(a: bytes, b: bytes, k: nat)
    requires k <= |a| && k <= |b| && a[..k] == b[..k]
    requires k < |a| && k < |b| ==> a[k] != b[k]
    ensures Less(a, b) <==> (k == |a| && k < |b|) || (k < |a| && k < |b| && a[k] < b[k])
    decreases k
  {
    if k > 0 {
      assert a[0] == a[..k][0] == b[..k][0] == b[0];
      assert a[1..][..k - 1] == a[..k][1..] && b[1..][..k - 1] == b[..k][1..];
      LessMeans(a[1..], b[1..], k - 1);
    }
  }

  lemma {:induction false} LessIsTotal(a: bytes, b: bytes)
    ensures a == b || Less(a, b) || Less(b, a)
    ensures !(Less(a, b) && Less(b, a)) && !Less(a, a)
  {
    if a != [] && b != [] && a[0] == b[0] {
      LessIsTotal(a[1..], b[1..]);
      assert a == [a[0]] + a[1..] && b == [b[0]] + b[1..];
    }
    if a != [] {
      LessIsTotal(a[1..], a[1..]);
    }
  }

  lemma {:induction false} LessIsTransitive(a: bytes, b: bytes, c: bytes)
    requires Less(a, b) && Less(b, c)
    ensures Less(a, c)
  {
    if a != [] && a[0] == b[0] == c[0] {
      LessIsTransitive(a[1..], b[1..], c[1..]);
    }
  }

  ghost predicate Ascending(names: seq<bytes>) {
    forall i, j :: 0 <= i < j < |names| ==> Less(names[i], names[j])
  }

  /** The smallest of some names. */
  method Smallest(names: set<bytes>) returns (least: bytes)
    requires names != {}
    ensures least in names && forall n :: n in names ==> n == least || Less(least, n)
  {
    least :| least in names;
    var left := names - {least};
    while left != {}
      invariant left <= names && least in names
      invariant forall n :: n in names && n !in left ==> n == least || Less(least, n)
      decreases left
    {
      var name :| name in left;
      if Less(name, least) {
        forall n | n in names && n !in left ensures Less(name, n) {
          if n != least {
            LessIsTransitive(name, least, n);
          }
        }
        least := name;
      } else {
        LessIsTotal(name, least);
      }
      left := left - {name};
    }
  }

  /** sorted(keys) */
  method SortedKeys(keys: set<bytes>) returns (names: seq<bytes>)
    ensures Lists(names, keys) && Ascending(names)
  {
    names := [];
    var left := keys;
    while left != {}
      invariant left <= keys && Lists(names, keys - left) && Ascending(names)
      invariant forall i, n :: 0 <= i < |names| && n in left ==> Less(names[i], n)
      decreases left
    {
      var least := Smallest(left);
      assert least !in names;
      names := names + [least];
      left := left - {least};
    }
    assert keys - left == keys;
  }

  /** There is only one ascending list of some names. */
  lemma {:induction false} AscendingIsUnique(a: seq<bytes>, b: seq<bytes>, keys: set<bytes>)
    requires Lists(a, keys) && Ascending(a) && Lists(b, keys) && Ascending(b)
    ensures a == b
    decreases |a|
  {
    assert b != [] ==> b[0] in b;
    if a != [] {
      assert a[0] in b;
      assert b[0] in a;
      LessIsTotal(a[0], b[0]);
      assert a[0] == b[0];
      ListsTail(a, keys);
      ListsTail(b, keys);
      AscendingIsUnique(a[1..], b[1..], keys - {a[0]});
      assert a == [a[0]] + a[1..] && b == [b[0]] + b[1..];
    }
  }

  lemma ListsTail(names: seq<bytes>, keys: set<bytes>)
    requires Lists(names, keys) && names != [] && Ascending(names)
    ensures Lists(names[1..], keys - {names[0]}) && Ascending(names[1..])
  {
    assert forall i :: 1 <= i < |names| ==> names[i] == names[1..][i - 1] && names[i] != names[0];
    assert names == [names[0]] + names[1..];
  }

  /** `names` lists the keys, each once. */
  ghost predicate Lists(names: seq<bytes>, keys: set<bytes>) {
    && (forall n :: n in names <==> n in keys)
    && forall i, j :: 0 <= i < j < |names| ==> names[i] != names[j]
  }

  function Encode(names: seq<bytes>, blocks: map<bytes, bytes>): bytes
    requires forall n :: n in names ==> n in blocks
  {
    ToHString(Spelled(names)) + Spelled(ContentsOf(names, blocks))
  }

  lemma {:induction false} SpelledSnoc(items: seq<bytes>, item: bytes)
    ensures Spelled(items + [item]) == Spelled(items) + ([SPACE] + ToHString(item))
  {
    if items == [] {
      assert [item][1..] == [];
    } else {
      SpelledSnoc(items[1..], item);
      assert (items + [item])[1..] == items[1..] + [item];
      Regroup([SPACE] + ToHString(items[0]), Spelled(items[1..]), [SPACE] + ToHString(item));
    }
  }

  lemma SpelledUpTo(items: seq<bytes>, i: nat)
    requires i < |items|
    ensures Spelled(items[..i + 1]) == Spelled(items[..i]) + ([SPACE] + ToHString(items[i]))
  {
    SpelledSnoc(items[..i], items[i]);
    assert items[..i + 1] == items[..i] + [items[i]];
  }

  method EncodeUserArea(blocks: map<bytes, bytes>) returns (area: bytes)
    ensures exists names :: Lists(names, blocks.Keys) && Ascending(names) && area == Encode(names, blocks)
  {
    var names := SortedKeys(blocks.Keys);
    var hBlockNames: bytes, hBlocks: bytes := [], [];
    ghost var contents := ContentsOf(names, blocks);
    for i := 0 to |names|
      invariant hBlockNames == Spelled(names[..i]) && hBlocks == Spelled(contents[..i])
    {
      SpelledUpTo(names, i);
      SpelledUpTo(contents, i);
      hBlockNames := hBlockNames + ([SPACE] + ToHString(names[i]));
      hBlocks := hBlocks + ([SPACE] + ToHString(blocks[names[i]]));
    }
    assert names[..|names|] == names && contents[..|names|] == contents;
    area := ToHString(hBlockNames) + hBlocks;
    assert Lists(names, blocks.Keys) && Ascending(names) && area == Encode(names, blocks);
  }

  /** An area with one block, byte for byte. */
  lemma AreaBytes(name: bytes, content: bytes)
    ensures var inner := [32] + (Decimal(|name|) + [72] + name);
            Encode([name], map[name := content]) ==
            Decimal(|inner|) + [72] + inner + ([32] + (Decimal(|content|) + [72] + content))
  {
    var blocks := map[name := content];
    assert ContentsOf([name], blocks) == [content];
    SpelledOne(name);
    SpelledOne(content);
  }

  lemma SpelledOne(item: bytes)
    ensures Spelled([item]) == [32] + (Decimal(|item|) + [72] + item)
  {
    assert [item][1..] == [];
    assert Spelled([item]) == [SPACE] + ToHString(item) + [];
  }

  // ---------- The round trip ----------

  lemma ReadsBack(lead: bytes, s: bytes, tail: bytes)
    requires lead == [] || lead == [SPACE]
    ensures ParseHollerith(lead + ToHString(s) + tail) == Content(s, tail)
  {
    HStringRoundTrip(s, tail);
    var b := ToHString(s) + tail;
    if lead == [] {
      assert lead + ToHString(s) + tail == b;
    } else {
      assert lead + ToHString(s) + tail == [SPACE] + b;
      SkipSpace(SPACE, b);
    }
    AgreesWithWire(lead + ToHString(s) + tail);
  }

  /** The names in front of the first empty one. */
  function UpToEmpty(names: seq<bytes>): (r: seq<bytes>)
    ensures |r| <= |names| && r == names[..|r|]
    ensures [] !in r && (|r| < |names| ==> names[|r|] == [])
  {
    if names == [] || names[0] == [] then [] else [names[0]] + UpToEmpty(names[1..])
  }

  lemma {:induction false} NamesReadBack(names: seq<bytes>)
    ensures NamesIn(Spelled(names)) == Done(UpToEmpty(names))
  {
    if names != [] {
      ReadsBack([SPACE], names[0], Spelled(names[1..]));
      NamesReadBack(names[1..]);
    }
  }

  function Pick(names: seq<bytes>, blocks: map<bytes, bytes>): Blocks
    requires forall n :: n in names ==> n in blocks
  {
    map n | n in names :: Some(blocks[n])
  }

  function Lift(blocks: map<bytes, bytes>): Blocks {
    map n | n in blocks :: Some(blocks[n])
  }

  lemma PickCons(name: bytes, names: seq<bytes>, blocks: map<bytes, bytes>, found: Blocks)
    requires name in blocks && forall n :: n in names ==> n in blocks
    ensures found[name := Some(blocks[name])] + Pick(names, blocks) == found + Pick([name] + names, blocks)
  {
  }

  lemma BlocksFirst(names: seq<bytes>, k: nat, h: bytes, found: Blocks, content: bytes, rest: bytes)
    requires 0 < k <= |names| && ParseHollerith(h) == Content(content, rest)
    ensures BlocksIn(names[..k], h, found) == BlocksIn(names[1..][..k - 1], rest, found[names[0] := Some(content)])
  {
    assert names[..k][1..] == names[1..][..k - 1] && names[..k][0] == names[0];
  }

  lemma {:induction false} BlocksReadBack(names: seq<bytes>, k: nat, blocks: map<bytes, bytes>, found: Blocks)
    requires k <= |names| && forall n :: n in names ==> n in blocks
    ensures BlocksIn(names[..k], Spelled(ContentsOf(names, blocks)), found) == Done(found + Pick(names[..k], blocks))
    decreases k
  {
    if k == 0 {
      assert found + Pick(names[..0], blocks) == found;
    } else {
      var block := Some(blocks[names[0]]);
      var found' := found[names[0] := block];
      assert ContentsOf(names, blocks)[1..] == ContentsOf(names[1..], blocks);
      ReadsBack([SPACE], blocks[names[0]], Spelled(ContentsOf(names[1..], blocks)));
      BlocksFirst(names, k, Spelled(ContentsOf(names, blocks)), found, blocks[names[0]],
                  Spelled(ContentsOf(names[1..], blocks)));
      BlocksReadBack(names[1..], k - 1, blocks, found');
      PickCons(names[0], names[1..][..k - 1], blocks, found);
      assert names[..k] == [names[0]] + names[1..][..k - 1];
    }
  }

  lemma DecodeFrom(area: bytes, nameList: bytes, names: seq<bytes>, tail: bytes)
    requires ParseHollerith(area) == Content(nameList, tail) && NamesIn(nameList) == Done(names)
    ensures Decode(area) == BlocksIn(names, tail, map[])
  {
  }

  /** The outermost string of an encoded area is the list of names. */
  lemma OuterReadsBack(names: seq<bytes>, blocks: map<bytes, bytes>)
    requires forall n :: n in names ==> n in blocks
    ensures ParseHollerith(Encode(names, blocks)) == Content(Spelled(names), Spelled(ContentsOf(names, blocks)))
  {
    var nameList, tail := Spelled(names), Spelled(ContentsOf(names, blocks));
    ReadsBack([], nameList, tail);
    assert [] + ToHString(nameList) + tail == Encode(names, blocks);
  }

  lemma NothingPlus(blocks: Blocks)
    ensures map[] + blocks == blocks
  {
  }

  /** In any case the blocks in front of the first empty name come back. */
  lemma DecodesToKept(names: seq<bytes>, blocks: map<bytes, bytes>)
    requires Lists(names, blocks.Keys)
    ensures Decode(Encode(names, blocks)) == Done(Pick(UpToEmpty(names), blocks))
  {
    var kept, tail := UpToEmpty(names), Spelled(ContentsOf(names, blocks));
    OuterReadsBack(names, blocks);
    NamesReadBack(names);
    DecodeFrom(Encode(names, blocks), Spelled(names), kept, tail);
    BlocksReadBack(names, |kept|, blocks, map[]);
    NothingPlus(Pick(kept, blocks));
  }

  lemma EmptyNameIsLost(names: seq<bytes>, blocks: map<bytes, bytes>)
    requires Lists(names, blocks.Keys) && [] in blocks
    ensures Pick(UpToEmpty(names), blocks) != Lift(blocks)
  {
    assert [] in Lift(blocks) && [] !in Pick(UpToEmpty(names), blocks);
  }

  lemma {:induction false} NoneIsEmpty(names: seq<bytes>)
    requires [] !in names
    ensures UpToEmpty(names) == names
  {
    if names != [] {
      NoneIsEmpty(names[1..]);
      assert names == [names[0]] + names[1..];
    }
  }

  lemma PickListed(names: seq<bytes>, blocks: map<bytes, bytes>)
    requires Lists(names, blocks.Keys)
    ensures Pick(names, blocks) == Lift(blocks)
  {
  }

  /** A name without a block has none; the blocks there are go to the names in front. */
  lemma {:induction false} MissingBlocks(names: seq<bytes>, contents: seq<bytes>, found: Blocks)
    requires |contents| <= |names| && forall i, j :: 0 <= i < j < |names| ==> names[i] != names[j]
    requires forall n :: n in names ==> n !in found
    ensures var p := BlocksIn(names, Spelled(contents), found);
            && p.Done?
            && (forall n :: n in p.value <==> n in found || n in names)
            && (forall n :: n in found ==> p.value[n] == found[n])
            && (forall i :: 0 <= i < |names| ==>
                  p.value[names[i]] == if i < |contents| then Some(contents[i]) else None)
    decreases |names|
  {
    if names != [] {
      var block := if contents == [] then None else Some(contents[0]);
      var later := if contents == [] then [] else contents[1..];
      if contents != [] {
        ReadsBack([SPACE], contents[0], Spelled(later));
      }
      var rest := names[1..];
      assert forall i :: 0 <= i < |rest| ==> rest[i] == names[i + 1];
      assert names == [names[0]] + rest;
      MissingBlocks(rest, later, found[names[0] := block]);
      var p := BlocksIn(names, Spelled(contents), found);
      assert p == BlocksIn(rest, Spelled(later), found[names[0] := block]);
      forall i | 0 <= i < |names|
        ensures p.value[names[i]] == if i < |contents| then Some(contents[i]) else None
      {
        if i > 0 {
          assert names[i] == rest[i - 1] && (i < |contents| ==> contents[i] == later[i - 1]);
        }
      }
    }
  }

  /** Decoding what was encoded gives the blocks back, if and only if no block has the empty name. */
  lemma UserAreaRoundTrip(names: seq<bytes>, blocks: map<bytes, bytes>)
    requires Lists(names, blocks.Keys)
    ensures Decode(Encode(names, blocks)) == Done(Lift(blocks)) <==> [] !in blocks
  {
    DecodesToKept(names, blocks);
    if [] in blocks {
      EmptyNameIsLost(names, blocks);
    } else {
      NoneIsEmpty(names);
      PickListed(names, blocks);
    }
  }

  /** The blocks that have a content. */
  function Lower(found: Blocks): map<bytes, bytes> {
    map n | n in found && found[n].Some? :: found[n].value
  }

  /** Encoding what was decoded gives the same bytes again. */
  lemma EncodesAgain(names: seq<bytes>, blocks: map<bytes, bytes>, again: seq<bytes>)
    requires Lists(names, blocks.Keys) && Ascending(names) && [] !in blocks
    requires Decode(Encode(names, blocks)).Done? ==>
               Lists(again, Lower(Decode(Encode(names, blocks)).value).Keys) && Ascending(again)
    ensures var decoded := Decode(Encode(names, blocks));
            decoded.Done? && again == names && Encode(again, Lower(decoded.value)) == Encode(names, blocks)
  {
    UserAreaRoundTrip(names, blocks);
    assert Lower(Lift(blocks)) == blocks;
    AscendingIsUnique(names, again, blocks.Keys);
  }

  lemma LiftUpdate(blocks: map<bytes, bytes>, name: bytes, content: bytes)
    ensures Lift(blocks[name := content]) == Lift(blocks)[name := Some(content)]
  {
  }

  /** Updating one block of a decoded user area changes that block and no other. */
  lemma UpdateChangesOneBlock(names: seq<bytes>, blocks: map<bytes, bytes>, name: bytes, content: bytes,
                              names': seq<bytes>)
    requires Lists(names, blocks.Keys) && [] !in blocks && name != []
    requires Lists(names', blocks.Keys + {name})
    ensures Decode(Encode(names, blocks)).Done?
    ensures Decode(Encode(names', blocks[name := content]))
         == Done(Decode(Encode(names, blocks)).value[name := Some(content)])
  {
    assert blocks[name := content].Keys == blocks.Keys + {name};
    UserAreaRoundTrip(names, blocks);
    UserAreaRoundTrip(names', blocks[name := content]);
    LiftUpdate(blocks, name, content);
  }
}
