/** What the parsers refuse and what they wait for: bytes that no printer writes, and values that are cut short. */
module Malformed {
  import opened Protocol
  import opened Wire
  import opened Printer

  /** White space is blank, tab, carriage return and newline. */
  lemma SpacesAre(c: byte)
    ensures IsSpace(c) <==> c in {32, 9, 13, 10}
    ensures IsDigit(c) <==> 48 <= c <= 57
  {
  }

  /** Without a digit, a number is 0, and the byte in its place is swallowed. */
  lemma NoDigitsIsZero(c: byte, after: bytes)
    requires !IsSpace(c) && !IsDigit(c)
    ensures Parse(Natural, [c] + after) == Ok(Number(0), after)
    ensures NatAndNext([c] + after) == Ok((0, c), after)
  {
    FirstIs(c, after);
  }

  /** A number is only complete when the byte behind it has come. */
  lemma NumberWaits(n: nat)
    ensures NatAndNext(Decimal(n)) == More
  {
    NatAndNextOfDecimal(n, [SPACE]);
    NatAndNextStable(Decimal(n), [SPACE]);
  }

  /** The letter behind the length must be an H, that is 72. */
  lemma StringRefused(n: nat, c: byte, after: bytes)
    requires c != 72 && !IsDigit(c)
    ensures Parse(Hollerith, Decimal(n) + ([c] + after)) == Bad(ProtocolError, after)
  {
    NatAndNextOfDecimal(n, [c] + after);
    assert ([c] + after)[1..] == after;
  }

  /** A string is only complete when all of it has come. */
  lemma {:induction false} StringWaits(n: nat, s: bytes)
    requires |s| < n
    ensures Parse(Hollerith, Decimal(n) + ([72] + s)) == More
    ensures Parse(Hollerith, Decimal(n)) == More
  {
    NatAndNextOfDecimal(n, [72] + s);
    assert ([72] + s)[1..] == s;
    NumberWaits(n);
  }

  lemma {:induction false} BitsFromRefused(k: nat, bits: seq<bool>, c: byte, after: bytes)
    requires |bits| < k && c !in {48, 49}
    ensures var b := BitChars(bits) + ([c] + after); BitsFrom(k, b[0], b[1..]) == Bad(ProtocolError, after)
    decreases k
  {
    var b := BitChars(bits) + ([c] + after);
    if bits == [] {
      assert b == [c] + after && b[1..] == after;
    } else {
      BitsFromRefused(k - 1, bits[1..], c, after);
      assert b[1..] == BitChars(bits[1..]) + ([c] + after);
    }
  }

  /** A bit is 48 or 49. */
  lemma {:induction false} BitsRefused(len: Positive, bits: seq<bool>, c: byte, after: bytes)
    requires |bits| < len && c !in {48, 49} && (bits == [] ==> !IsSpace(c))
    ensures Parse(Bits(len), BitChars(bits) + ([c] + after)) == Bad(ProtocolError, after)
  {
    var b := BitChars(bits) + ([c] + after);
    assert FirstNonSpace(b) == Ok(b[0], b[1..]);
    BitsFromRefused(len, bits, c, after);
  }

  lemma {:induction false} BitsFromWait(k: nat, bits: seq<bool>)
    requires 0 < |bits| <= k
    ensures BitsFrom(k, BitChars(bits)[0], BitChars(bits)[1..]) == More
    decreases k
  {
    assert BitChars(bits)[1..] == BitChars(bits[1..]);
    if |bits| > 1 {
      BitsFromWait(k - 1, bits[1..]);
    }
  }

  lemma BitsStarve(len: Positive, b: bytes)
    requires b != [] && !IsSpace(b[0]) && BitsFrom(len, b[0], b[1..]).More?
    ensures Parse(Bits(len), b) == More
  {
    assert FirstNonSpace(b) == Ok(b[0], b[1..]);
  }

  /** A bit string is only complete when the byte behind it has come. */
  lemma {:induction false} BitsWait(len: Positive, bits: seq<bool>)
    requires |bits| <= len
    ensures Parse(Bits(len), BitChars(bits)) == More
  {
    if bits != [] {
      BitsFromWait(len, bits);
      BitsStarve(len, BitChars(bits));
    }
  }

  /** Behind its length, a list begins with a star or a brace, 42 or 123. */
  lemma ListRefused(t: WireType, n: nat, c: byte, after: bytes)
    requires c !in {42, 123} && !IsSpace(c)
    ensures Parse(Array(t), Decimal(n) + ([32] + ([c] + after))) == Bad(ProtocolError, after)
  {
    NatOfDecimal(n, [32] + ([c] + after));
    assert ([32] + ([c] + after))[1..] == [c] + after;
    FirstIs(c, after);
  }

  /** Behind its elements, a list ends with a brace, 125, and with nothing else. */
  lemma {:induction false} ListUnclosed(t: WireType, n: nat, body: bytes, c: byte, after: bytes)
    requires ParseElems(t, n, body).Ok? && FirstNonSpace(ParseElems(t, n, body).rest) == Ok(c, after)
    ensures var p := Parse(Array(t), Decimal(n) + ([32] + ([123] + body)));
            p == if c == 125 then Ok(Items(ParseElems(t, n, body).value), after) else Bad(ProtocolError, after)
  {
    ArrayOpens(t, n, body);
  }

  /** A text mapping is sparse or dense, 0 or 1. */
  lemma MappingRefused(tag: nat, after: bytes)
    requires tag !in {0, 1}
    ensures TEXT_MAPPING.inner.Record? && |TEXT_MAPPING.inner.fields| == 4 && TEXT_MAPPING.inner.fields[3].Tagged?
    ensures Parse(TEXT_MAPPING.inner.fields[3], Decimal(tag) + ([32] + after)) == Bad(ProtocolError, after)
  {
    NatOfDecimal(tag, [32] + after);
    assert ([32] + after)[1..] == after;
    assert ParseArms(Arm({1}, DENSE_BLOCK, Reject), tag, after) == Bad(ProtocolError, after);
  }
}
