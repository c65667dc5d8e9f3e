/** The byte level of Protocol A: white space, digits, naturals and Hollerith strings.

    A parser is a pure function from the unread bytes to `Parsed`.  `More` stands for the exception
    that interrupts a parser when the bytes run out: NotEnoughDataInBufferError in the asyncio
    reader, ReceiveError in the blocking one. */
module Protocol {
  newtype byte = x: int | 0 <= x < 256

  type bytes = seq<byte>

  const SPACE: byte := 32
  const NEWLINE: byte := 10
  const ZERO: byte := 48
  const LETTER_H: byte := 72
  const STAR: byte := 42
  const OPEN_BRACE: byte := 123
  const CLOSE_BRACE: byte := 125
  const EQUALS: byte := 61
  const PERCENT: byte := 37
  const COLON: byte := 58

  predicate IsSpace(c: byte) {
    c == 32 || c == 9 || c == 13 || c == 10
  }

  predicate IsDigit(c: byte) {
    48 <= c <= 57
  }

  /** The local errors a response can raise while it is parsed.  UnknownCall and UnknownErrorNumber are the
      KeyErrors of the two table look-ups. */
  datatype WireError =
    | ProtocolError
    | BadRequestId(refNo: nat)
    | UnimplementedAsync(msgNo: nat)
    | UnknownCall(callNo: nat)
    | UnknownErrorNumber(errorNo: nat)

  datatype Parsed<+T> = Ok(value: T, rest: bytes) | Bad(error: WireError, rest: bytes) | More {
    predicate IsFailure() {
      !Ok?
    }

    function PropagateFailure<U>(): Parsed<U>
      requires IsFailure()
    {
      if Bad? then Bad(error, rest) else More
    }

    function Extract(): (T, bytes)
      requires Ok?
    {
      (value, rest)
    }

    /** The same outcome with `suffix` behind the unread bytes. */
    function Extend(suffix: bytes): Parsed<T> {
      match this
      case Ok(v, r) => Ok(v, r + suffix)
      case Bad(e, r) => Bad(e, r + suffix)
      case More => More
    }

    /** What is left over is a suffix of what was given. */
    ghost predicate LeavesSuffixOf(b: bytes) {
      More? || IsSuffix(rest, b)
    }
  }

  /** `p` is the outcome on some buffer, `q` the outcome on that buffer with `suffix` appended. */
  ghost predicate StableUnder<T>(p: Parsed<T>, q: Parsed<T>, suffix: bytes) {
    p.More? || q == p.Extend(suffix)
  }

  // ---------- Readers ----------

  function FirstNonSpace(b: bytes): (p: Parsed<byte>)
    ensures !p.Bad?
    ensures p.Ok? ==> |p.rest| <= |b|
    ensures p.Ok? ==> !IsSpace(p.value) && |p.rest| < |b|
  {
    if b == [] then More
    else if IsSpace(b[0]) then FirstNonSpace(b[1..])
    else Ok(b[0], b[1..])
  }

  /** The digit loop of read_int_and_next: `n` is the number so far, `c` the byte in hand. */
  function DigitsFrom(n: nat, c: byte, b: bytes): (p: Parsed<(nat, byte)>)
    ensures !p.Bad?
    ensures p.Ok? ==> |p.rest| <= |b|
    ensures p.Ok? ==> !IsDigit(p.value.1)
    decreases |b|
  {
    if !IsDigit(c) then Ok((n, c), b)
    else if b == [] then More
    else DigitsFrom(10 * n + (c as int - 48), b[0], b[1..])
  }

  function NatAndNext(b: bytes): (p: Parsed<(nat, byte)>)
    ensures !p.Bad?
    ensures p.Ok? ==> |p.rest| <= |b|
    ensures p.Ok? ==> |p.rest| < |b| && !IsDigit(p.value.1)
  {
    var (c, r) :- FirstNonSpace(b);
    DigitsFrom(0, c, r)
  }

  /** read_int: the byte after the last digit is swallowed. */
  function Nat(b: bytes): (p: Parsed<nat>)
    ensures !p.Bad?
    ensures p.Ok? ==> |p.rest| <= |b|
    ensures p.Ok? ==> |p.rest| < |b|
  {
    var (nc, r) :- NatAndNext(b);
    Ok(nc.0, r)
  }

  function Exactly(n: nat, b: bytes): (p: Parsed<bytes>)
    ensures !p.Bad?
    ensures p.Ok? ==> |p.rest| <= |b|
    ensures p.Ok? ==> |p.value| == n && p.value + p.rest == b
  {
    if |b| < n then More else Ok(b[..n], b[n..])
  }

  function HString(b: bytes): (p: Parsed<bytes>)
    ensures !p.More? ==> |p.rest| < |b|
    ensures p.Bad? ==> p.error == ProtocolError
  {
    var (nc, r) :- NatAndNext(b);
    if nc.1 != LETTER_H then Bad(ProtocolError, r) else Exactly(nc.0, r)
  }

  // ---------- Stability ----------

  lemma {:induction false} FirstNonSpaceStable(b: bytes, s: bytes)
    ensures StableUnder(FirstNonSpace(b), FirstNonSpace(b + s), s)
  {
    if b != [] {
      assert (b + s)[1..] == b[1..] + s;
      if IsSpace(b[0]) {
        FirstNonSpaceStable(b[1..], s);
      }
    }
  }

  lemma {:induction false} DigitsFromStable(n: nat, c: byte, b: bytes, s: bytes)
    ensures StableUnder(DigitsFrom(n, c, b), DigitsFrom(n, c, b + s), s)
    decreases |b|
  {
    if IsDigit(c) && b != [] {
      assert (b + s)[1..] == b[1..] + s;
      DigitsFromStable(10 * n + (c as int - 48), b[0], b[1..], s);
    }
  }

  lemma NatAndNextStable(b: bytes, s: bytes)
    ensures StableUnder(NatAndNext(b), NatAndNext(b + s), s)
  {
    FirstNonSpaceStable(b, s);
    var p := FirstNonSpace(b);
    if p.Ok? {
      DigitsFromStable(0, p.value, p.rest, s);
    }
  }

  lemma NatStable(b: bytes, s: bytes)
    ensures StableUnder(Nat(b), Nat(b + s), s)
  {
    NatAndNextStable(b, s);
  }

  lemma HStringStable(b: bytes, s: bytes)
    ensures StableUnder(HString(b), HString(b + s), s)
  {
    NatAndNextStable(b, s);
    var p := NatAndNext(b);
    if p.Ok? && p.value.1 == LETTER_H && p.value.0 <= |p.rest| {
      assert (p.rest + s)[..p.value.0] == p.rest[..p.value.0];
      assert (p.rest + s)[p.value.0..] == p.rest[p.value.0..] + s;
    }
  }

  // ---------- Nothing is read twice or skipped ----------

  ghost predicate IsSuffix(r: bytes, b: bytes) {
    r == b || (b != [] && IsSuffix(r, b[1..]))
  }

  lemma {:induction false} SuffixOfSuffix(b: bytes, c: bytes, d: bytes)
    requires IsSuffix(c, b) && IsSuffix(d, c)
    ensures IsSuffix(d, b)
  {
    if c != b {
      SuffixOfSuffix(b[1..], c, d);
    }
  }

  lemma {:induction false} DropIsSuffix(b: bytes, n: nat)
    requires n <= |b|
    ensures IsSuffix(b[n..], b)
  {
    if n > 0 {
      DropIsSuffix(b[1..], n - 1);
      assert b[1..][n - 1..] == b[n..];
    } else {
      assert b[n..] == b;
    }
  }

  /** `q` goes on where `p` ended. */
  lemma SuffixThen<T, U>(b: bytes, p: Parsed<T>, q: Parsed<U>)
    requires p.Ok? && p.LeavesSuffixOf(b) && q.LeavesSuffixOf(p.rest)
    ensures q.LeavesSuffixOf(b)
  {
    if !q.More? {
      SuffixOfSuffix(b, p.rest, q.rest);
    }
  }

  lemma {:induction false} SuffixIsSlice(r: bytes, b: bytes)
    requires IsSuffix(r, b)
    ensures |r| <= |b| && r == b[|b| - |r|..]
  {
    if r != b {
      SuffixIsSlice(r, b[1..]);
    }
  }

  lemma {:induction false} FirstNonSpaceSuffix(b: bytes)
    ensures FirstNonSpace(b).LeavesSuffixOf(b)
  {
    if b != [] && IsSpace(b[0]) {
      FirstNonSpaceSuffix(b[1..]);
    }
  }

  lemma {:induction false} DigitsFromSuffix(n: nat, c: byte, b: bytes)
    ensures DigitsFrom(n, c, b).LeavesSuffixOf(b)
    decreases |b|
  {
    if IsDigit(c) && b != [] {
      DigitsFromSuffix(10 * n + (c as int - 48), b[0], b[1..]);
    }
  }

  lemma NatAndNextSuffix(b: bytes)
    ensures NatAndNext(b).LeavesSuffixOf(b)
  {
    FirstNonSpaceSuffix(b);
    var p := FirstNonSpace(b);
    if p.Ok? {
      DigitsFromSuffix(0, p.value, p.rest);
      SuffixThen(b, p, DigitsFrom(0, p.value, p.rest));
    }
  }

  lemma HStringSuffix(b: bytes)
    ensures HString(b).LeavesSuffixOf(b)
  {
    NatAndNextSuffix(b);
    var p := NatAndNext(b);
    if p.Ok? && p.value.0 <= |p.rest| {
      DropIsSuffix(p.rest, p.value.0);
      SuffixThen(b, p, Exactly(p.value.0, p.rest));
    }
  }

  // ---------- Printers ----------

  function Digit(d: nat): (c: byte)
    requires d < 10
    ensures IsDigit(c) && c as int - 48 == d
  {
    (48 + d) as byte
  }

  /** b"%d" % n for a natural number. */
  function Decimal(n: nat): (s: bytes)
    ensures s != [] && IsDigit(s[0])
  {
    if n < 10 then [Digit(n)] else Decimal(n / 10) + [Digit(n % 10)]
  }

  function ToHString(s: bytes): bytes {
    Decimal(|s|) + [LETTER_H] + s
  }

  /** The last digit of `n` completes it. */
  lemma LastDigit(n: nat, after: bytes)
    requires after != []
    ensures DigitsFrom(n / 10, Digit(n % 10), after) == DigitsFrom(n, after[0], after[1..])
  {
    assert 10 * (n / 10) + n % 10 == n;
  }

  /** After the digits of `n` the reader has `n` in hand, and the byte that follows them. */
  lemma {:induction false} DigitsReach(n: nat, b: bytes, after: bytes)
    requires after != [] && b == Decimal(n) + after
    ensures DigitsFrom(0, b[0], b[1..]) == DigitsFrom(n, after[0], after[1..])
    decreases n
  {
    var last := Digit(n % 10);
    LastDigit(n, after);
    if n < 10 {
      assert Decimal(n) == [last];
      assert b[0] == last && b[1..] == after;
    } else {
      var next := [last] + after;
      assert Decimal(n) == Decimal(n / 10) + [last];
      assert b == Decimal(n / 10) + next;
      DigitsReach(n / 10, b, next);
      assert next[0] == last && next[1..] == after;
    }
  }

  /** A printed natural followed by a non-digit reads back, and that byte is handed over. */
  lemma NatAndNextOfDecimal(n: nat, after: bytes)
    requires after != [] && !IsDigit(after[0])
    ensures NatAndNext(Decimal(n) + after) == Ok((n, after[0]), after[1..])
  {
    var b := Decimal(n) + after;
    assert FirstNonSpace(b) == Ok(b[0], b[1..]);
    assert NatAndNext(b) == DigitsFrom(0, b[0], b[1..]);
    DigitsReach(n, b, after);
  }

  lemma NatOfDecimal(n: nat, after: bytes)
    requires after != [] && !IsDigit(after[0])
    ensures Nat(Decimal(n) + after) == Ok(n, after[1..])
  {
    NatAndNextOfDecimal(n, after);
  }

  /** A printed string reads back whatever follows it, and nothing after it is touched. */
  lemma HStringRoundTrip(s: bytes, tail: bytes)
    ensures HString(ToHString(s) + tail) == Ok(s, tail)
  {
    var after := [LETTER_H] + s + tail;
    NatAndNextOfDecimal(|s|, after);
    assert ToHString(s) + tail == Decimal(|s|) + after;
    assert after[1..] == s + tail;
    assert (s + tail)[..|s|] == s && (s + tail)[|s|..] == tail;
  }

  lemma Regroup(a: bytes, b: bytes, c: bytes)
    ensures a + b + c == a + (b + c)
  {
  }

  /** White space in front of a value is skipped. */
  lemma SkipSpace(w: byte, b: bytes)
    requires IsSpace(w)
    ensures FirstNonSpace([w] + b) == FirstNonSpace(b)
  {
    assert ([w] + b)[1..] == b;
  }
}
