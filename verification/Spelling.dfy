/** The bytes of values and requests, and the fields of the records, written out with the numbers of the bytes:
    32 blank, 10 newline, 42 star, 48 to 57 the digits, 72 the letter H, 123 and 125 the braces. */
module Spelling {
  import opened Protocol
  import opened MiscInfo
  import opened Wire
  import opened Printer
  import opened Requests
  import opened Catalog

  // ---------- Values ----------

  /** Digits, the most significant first. */
  lemma NumberBytes(n: nat, d: nat)
    requires d < 10
    ensures Print(Number(d)) == [48 + d as byte]
    ensures 0 < n ==> Print(Number(10 * n + d)) == Print(Number(n)) + [48 + d as byte]
  {
    assert (10 * n + d) / 10 == n && (10 * n + d) % 10 == d;
  }

  lemma StringBytes(s: bytes)
    ensures Print(Str(s)) == Print(Number(|s|)) + [72] + s
  {
  }

  lemma {:induction false} BitBytes(bits: seq<bool>, i: nat)
    requires i < |bits|
    ensures |Print(BitList(bits))| == |bits| && Print(BitList(bits))[i] == if bits[i] then 49 else 48
  {
    if i > 0 {
      BitBytes(bits[1..], i - 1);
    }
  }

  lemma {:induction false} JoinSnoc(vs: seq<Value>, v: Value)
    requires vs != []
    ensures Join(vs + [v]) == Join(vs) + [32] + Print(v)
  {
    if |vs| == 1 {
      assert (vs + [v])[1..] == [v];
    } else {
      JoinSnoc(vs[1..], v);
      assert (vs + [v])[1..] == vs[1..] + [v];
      JoinMore(Print(vs[0]), Join(vs[1..]), Print(v));
    }
  }

  lemma JoinMore(a: bytes, b: bytes, c: bytes)
    ensures a + [32] + (b + [32] + c) == a + [32] + b + [32] + c
  {
  }

  /** A list is its length, then its elements in braces, with one blank around the braces and between the elements. */
  lemma {:induction false} ListBytes(vs: seq<Value>, v: Value)
    requires vs != []
    ensures Print(Items(vs + [v])) ==
            Print(Number(|vs| + 1)) + [32, 123, 32] + Join(vs) + [32] + Print(v) + [32, 125]
  {
    JoinSnoc(vs, v);
    ListJoined(Decimal(|vs| + 1), Join(vs), Print(v));
    assert Print(Items(vs + [v])) == Decimal(|vs| + 1) + OPEN + Join(vs + [v]) + [SPACE, CLOSE_BRACE];
  }

  lemma ShortListBytes(v: Value)
    ensures Print(Items([])) == [48, 32, 123, 32, 125]
    ensures Print(Items([v])) == Print(Number(1)) + [32, 123, 32] + Print(v) + [32, 125]
  {
    assert Print(Items([v])) == Decimal(1) + OPEN + Join([v]) + [SPACE, CLOSE_BRACE];
  }

  lemma ListJoined(length: bytes, a: bytes, b: bytes)
    ensures length + OPEN + (a + [32] + b) + [SPACE, CLOSE_BRACE] ==
            length + [32, 123, 32] + a + [32] + b + [32, 125]
  {
  }

  /** A star stands for the elements. */
  lemma StarBytes(n: nat)
    ensures Print(Star(n)) == Print(Number(n)) + [32, 42]
  {
  }

  /** The fields of a record, and the parts of a tagged value, are separated by one blank. */
  lemma RecordBytes(vs: seq<Value>, v: Value, tag: nat)
    ensures Print(Fields([v])) == Print(v)
    ensures vs != [] ==> Print(Fields(vs + [v])) == Print(Fields(vs)) + [32] + Print(v)
    ensures Print(Variant(tag, v)) == Print(Number(tag)) + [32] + Print(v)
  {
    if vs != [] {
      JoinSnoc(vs, v);
    }
  }

  /** A misc-info that is sent: how many, and in braces the comment-tos and then the recipients, each with a blank
      behind. */
  lemma MiscBytes(to: CommentTo<Value>, r: Recipient<Value>)
    requires to.textNo.Number? && r.recpt.Number?
    ensures Print(Misc(Cooked([], [], []))) == [48, 32, 123, 32, 125]
    ensures Print(Misc(Cooked([r], [to], []))) ==
            [50, 32, 123, 32] + (Pair(to.kind, to.textNo.n) + (Pair(r.kind, r.recpt.n) + [125]))
  {
    assert Decimal(0) == [48] && Decimal(2) == [50];
    assert Tuples(Cooked([], [], [])) == [];
    assert Tuples(Cooked([r], [to], [])) == [(to.kind, to.textNo.n), (r.kind, r.recpt.n)];
    TwoPairs(to.kind, to.textNo.n, r.kind, r.recpt.n);
  }

  function Pair(a: nat, b: nat): bytes {
    Print(Number(a)) + [32] + Print(Number(b)) + [32]
  }

  lemma TwoPairs(a: nat, b: nat, c: nat, d: nat)
    ensures [50] + OPEN + PrintTuples([(a, b), (c, d)]) + [CLOSE_BRACE] ==
            [50, 32, 123, 32] + (Pair(a, b) + (Pair(c, d) + [125]))
  {
    var last := [(c, d)];
    assert [(a, b), (c, d)][1..] == last && last[1..] == [];
    assert PrintTuples(last) == Pair(c, d) + [];
    PairJoined(Decimal(a), Decimal(b), Pair(c, d));
    TuplesJoined(Pair(a, b), Pair(c, d));
  }

  lemma PairJoined(a: bytes, b: bytes, rest: bytes)
    ensures a + [SPACE] + b + [SPACE] + rest == (a + [32] + b + [32]) + rest
  {
  }

  lemma TuplesJoined(a: bytes, b: bytes)
    ensures [50] + OPEN + (a + b) + [CLOSE_BRACE] == [50, 32, 123, 32] + (a + (b + [125]))
  {
  }

  // ---------- Requests ----------

  /** A line is the reference number, the call number and the arguments, with one blank between them, and a newline. */
  lemma LineBytes(ref: nat, callNo: nat, args: seq<Value>)
    ensures RequestLine(ref, Request(callNo, args)) ==
            Print(Number(ref)) + [32] + Print(Number(callNo)) + (if args == [] then [] else [32] + Join(args)) + [10]
  {
    CallJoined(callNo, args);
    LineJoined(Decimal(ref), Decimal(callNo), if args == [] then [] else [32] + Join(args),
               Join([Number(callNo)] + args));
  }

  lemma CallJoined(callNo: nat, args: seq<Value>)
    ensures Join([Number(callNo)] + args) == Decimal(callNo) + (if args == [] then [] else [32] + Join(args))
  {
    var parts := [Number(callNo)] + args;
    assert Print(parts[0]) == Decimal(callNo);
    if args != [] {
      assert parts[1..] == args;
    }
  }

  lemma LineJoined(ref: bytes, call: bytes, args: bytes, joined: bytes)
    requires joined == call + args
    ensures ref + [32] + (joined + [10]) == ref + [32] + call + args + [10]
  {
  }

  // ---------- Records ----------

  /** A record holds its fields in order. */
  lemma RecordFields(v: Value, ts: seq<WireType>)
    ensures HasType(v, Record(ts)) <==>
            v.Fields? && |v.parts| == |ts| && forall i :: 0 <= i < |ts| ==> HasType(v.parts[i], ts[i])
  {
    if v.Fields? {
      HaveTypesPointwise(v.parts, ts);
    }
  }

  /** Seconds, minutes, hours, day, month, year, day of the week, day of the year and daylight saving. */
  lemma TimeFields()
    ensures TIME.Record? && |TIME.fields| == 9
    ensures forall i, p :: 0 <= i < 9 ==> (HasType(p, TIME.fields[i]) <==> p.Number?)
  {
  }

  /** A time behind the kinds 7 and 9, a number behind all others. */
  lemma RawItemFields(kind: nat, data: Value)
    ensures HasType(Variant(kind, data), RAW_MISC_INFO) <==>
            if kind in {7, 9} then HasType(data, TIME) else data.Number?
    ensures ItemsOf([Variant(kind, data)]) == [Item(kind, data)]
  {
    assert HasArmType(data, Otherwise(Natural), kind) <==> data.Number?;
  }

  lemma PairFields(v: Value)
    ensures HasType(v, READ_RANGE) <==> v.Fields? && |v.parts| == 2 && v.parts[0].Number? && v.parts[1].Number?
    ensures HasType(v, TEXT_NUMBER_PAIR) <==> HasType(v, READ_RANGE)
  {
    RecordFields(v, [Natural, Natural]);
    if v.Fields? && |v.parts| == 2 {
      assert HasType(v.parts[0], [Natural, Natural][0]) && HasType(v.parts[1], [Natural, Natural][1]) <==>
             v.parts[0].Number? && v.parts[1].Number?;
    }
  }

  /** Position, last time read, conference, priority, read ranges, added by, added at, and eight flags. */
  lemma MembershipFields(i: nat, p: Value)
    requires i < 8
    ensures MEMBERSHIP_11.Record? && |MEMBERSHIP_11.fields| == 8
    ensures HasType(p, MEMBERSHIP_11.fields[i]) <==>
            if i == 1 || i == 6 then HasType(p, TIME)
            else if i == 4 then p.Items? && forall j :: 0 <= j < |p.elems| ==> HasType(p.elems[j], READ_RANGE)
            else if i == 7 then p.BitList? && |p.bits| == 8
            else p.Number?
  {
  }

  /** Number, tag, creator, time of creation, flags, inheritance limit and data. */
  lemma AuxItemFields(i: nat, p: Value)
    requires i < 7
    ensures AUX_ITEM.Record? && |AUX_ITEM.fields| == 7
    ensures HasType(p, AUX_ITEM.fields[i]) <==>
            if i == 3 then HasType(p, TIME)
            else if i == 4 then p.BitList? && |p.bits| == 8
            else if i == 6 then p.Str?
            else p.Number?
  {
  }

  /** What a client sends of an aux-item: tag, flags, inheritance limit and data. */
  lemma AuxItemInputFields(i: nat, p: Value)
    requires i < 4
    ensures AUX_ITEM_INPUT.Record? && |AUX_ITEM_INPUT.fields| == 4
    ensures HasType(p, AUX_ITEM_INPUT.fields[i]) <==>
            if i == 1 then p.BitList? && |p.bits| == 8 else if i == 3 then p.Str? else p.Number?
  {
  }

  /** Time of creation, author, lines, characters, marks, misc-info and aux-items. */
  lemma TextStatParts(i: nat, p: Value)
    requires i < 7
    ensures TEXT_STAT.Record? && |TEXT_STAT.fields| == 7
    ensures HasType(p, TEXT_STAT.fields[i]) <==>
            if i == 0 then HasType(p, TIME)
            else if i == 5 then p.Misc? && SendableMisc(p.cooked)
            else if i == 6 then p.Items? && forall j :: 0 <= j < |p.elems| ==> HasType(p.elems[j], AUX_ITEM)
            else p.Number?
  {
  }
}
