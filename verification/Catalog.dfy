/** Some of the concrete types and requests of Protocol A, as instances of the general results. */
module Catalog {
  import opened Protocol
  import opened MiscInfo
  import opened Options
  import opened Wire
  import opened Printer
  import opened ServerForm
  import opened Requests

  const CREATE_TEXT: nat := 86
  const LOCAL_TO_GLOBAL: nat := 103

  const READ_RANGE := Record([Natural, Natural])
  const MEMBERSHIP_11 :=
    Record([Natural, TIME, Natural, Natural, Array(READ_RANGE), Natural, TIME, Bits(8)])
  const AUX_ITEM_INPUT := Record([Natural, Bits(8), Natural, Hollerith])

  const AUX_ITEM := Record([Natural, Natural, Natural, TIME, Bits(8), Natural, Hollerith])
  const TEXT_STAT :=
    Record([TIME, Natural, Natural, Natural, Natural, COOKED_MISC_INFO, Array(AUX_ITEM)])

  const CREATE_TEXT_ARGS := [Hollerith, COOKED_MISC_INFO, Array(AUX_ITEM_INPUT)]
  const LOCAL_TO_GLOBAL_ARGS := [Natural, Natural, Natural]

  const SIGNATURES: Signatures := map[CREATE_TEXT := CREATE_TEXT_ARGS, LOCAL_TO_GLOBAL := LOCAL_TO_GLOBAL_ARGS]

  lemma RecordEndingInBits(fields: seq<WireType>, v: Value, after: bytes)
    requires fields != [] && fields[|fields| - 1].Bits?
    requires PrintableType(Record(fields)) && Writable(v, Record(fields))
    requires after != [] && IsSpace(after[0])
    ensures Parse(Record(fields), Print(v) + after) == Ok(AsSent(v), after[1..])
  {
    RoundTrip(Record(fields), v, after);
    AllWritableAt(v.parts, fields, |fields| - 1);
    assert Swallows(v.parts[|v.parts| - 1]);
    assert Swallows(v);
  }

  /** A membership as the server writes it comes back whole, without read ranges where a star is written for them, and
      its trailing flags swallow the byte behind it. */
  lemma MembershipRoundTrip(m: Value, after: bytes)
    requires Writable(m, MEMBERSHIP_11)
    requires after != [] && IsSpace(after[0])
    ensures Parse(MEMBERSHIP_11, Print(m) + after) == Ok(AsSent(m), after[1..])
  {
    assert PrintableType(TIME) && PrintableType(Array(READ_RANGE));
    RecordEndingInBits(MEMBERSHIP_11.fields, m, after);
  }

  // ---------- Text-Stat ----------

  /** The fields of a Text-Stat: only the misc-info, field 5, is converted. */
  lemma TextStatFields(i: nat)
    requires i < 7
    ensures i != 5 ==> Unconverted(TEXT_STAT.fields[i])
    ensures OnWire(TEXT_STAT.fields[i]) == if i == 5 then Array(RAW_MISC_INFO) else TEXT_STAT.fields[i]
    ensures PrintableType(OnWire(TEXT_STAT.fields[i]))
  {
    assert Unconverted(TIME) && Unconverted(RAW_MISC_INFO) && Unconverted(AUX_ITEM);
    assert PrintableType(TIME) && PrintableType(RAW_MISC_INFO) && PrintableType(AUX_ITEM);
    if i == 5 {
      UnconvertedOnWire(RAW_MISC_INFO);
    } else {
      UnconvertedOnWire(TEXT_STAT.fields[i]);
    }
  }

  lemma {:induction false} TextStatReceived(fields: seq<WireType>, parts: seq<Value>)
    requires fields == TEXT_STAT.fields && HaveTypes(parts, AllOnWire(fields))
    ensures parts[5].Items?
    ensures var cooked := Cook(ItemsOf(parts[5].elems));
            ReceivedFields(fields, parts) == if cooked.Some? then Some(parts[5 := Misc(cooked.value)]) else None
  {
    HaveTypesPointwise(parts, AllOnWire(fields));
    forall i | 0 <= i < 7
      ensures HasType(parts[i], OnWire(fields[i])) && (i != 5 ==> Received(fields[i], parts[i]) == Some(parts[i]))
    {
      AllOnWireAt(fields, i);
      TextStatFields(i);
      assert HasType(parts[i], AllOnWire(fields)[i]);
      if i != 5 {
        UnconvertedReceived(fields[i], parts[i]);
      }
    }
    TextStatFields(5);
    MiscReceived(parts[5]);
    var cooked := Cook(ItemsOf(parts[5].elems));
    if cooked.Some? {
      FieldsReceivedEach(fields, parts, parts[5 := Misc(cooked.value)]);
    } else {
      FieldRejected(fields, parts, 5);
    }
  }

  lemma MiscReceived(v: Value)
    requires HasType(v, Array(RAW_MISC_INFO))
    ensures var cooked := Cook(ItemsOf(v.elems));
            Received(COOKED_MISC_INFO, v) == if cooked.Some? then Some(Misc(cooked.value)) else None
  {
    assert Unconverted(RAW_MISC_INFO);
    UnconvertedElemsReceived(RAW_MISC_INFO, v.elems);
  }

  lemma TextStatPrintable()
    ensures PrintableType(OnWire(TEXT_STAT))
  {
    var fields := TEXT_STAT.fields;
    forall i | 0 <= i < |fields| ensures PrintableType(AllOnWire(fields)[i]) {
      AllOnWireAt(fields, i);
      TextStatFields(i);
    }
    assert PrintableType(Record(AllOnWire(fields)));
  }

  /** A Text-Stat that the server sends, with its lists as stars or not, is read with its misc-info cooked, or rejected
      if that is not accepted. */
  lemma TextStatRoundTrip(v: Value, after: bytes)
    requires Writable(v, OnWire(TEXT_STAT))
    requires after != [] && IsSpace(after[0])
    ensures v.Fields? && |v.parts| == 7
    ensures var parts, cooked := AllAsSent(v.parts), Cook(ItemsRead(v.parts[5]));
            Follows(Parse(TEXT_STAT, Print(v) + after), Ok(AsSent(v), Rest(v, after)),
                    if cooked.Some? then Some(Fields(parts[5 := Misc(cooked.value)])) else None)
  {
    TextStatPrintable();
    AsSentTyped(OnWire(TEXT_STAT), v);
    AllAsSentAt(v.parts, 5);
    TextStatReceived(TEXT_STAT.fields, AllAsSent(v.parts));
    ServerRoundTrip(TEXT_STAT, v, after);
  }

  // ---------- create-text ----------

  lemma ThreeAsSent(a: Value, b: Value, c: Value)
    ensures AllAsSent([a, b, c]) == [AsSent(a), AsSent(b), AsSent(c)]
  {
    assert [a, b, c][1..] == [b, c] && [b, c][1..] == [c];
    assert AllAsSent([c]) == [AsSent(c)];
  }

  lemma TextMiscListAsSent(text: bytes, misc: Cooked<Value>, list: Value)
    requires SendableMisc(misc) && Plain(list)
    ensures AllAsSent([Str(text), Misc(misc), list]) == [Str(text), Misc(Stripped(misc)), list]
  {
    PlainAsSent(list);
    ThreeAsSent(Str(text), Misc(misc), list);
  }

  lemma TextMiscListTyped(text: bytes, misc: Cooked<Value>, list: Value, t: WireType)
    requires SendableMisc(misc) && HasType(list, t)
    ensures HaveTypes([Str(text), Misc(misc), list], [Hollerith, COOKED_MISC_INFO, t])
  {
    HaveTypesPointwise([Str(text), Misc(misc), list], [Hollerith, COOKED_MISC_INFO, t]);
  }

  /** Requests whose arguments are a string, a misc-info and a list. */
  lemma TextMiscListDecodes(s: Signatures, refNo: nat, callNo: nat, t: WireType,
                            text: bytes, misc: Cooked<Value>, list: Value, later: bytes)
    requires callNo in s && s[callNo] == [Hollerith, COOKED_MISC_INFO, t]
    requires PrintableType(t) && HasType(list, t) && SendableMisc(misc) && Plain(list) && !Swallows(list)
    ensures Decode(s, RequestLine(refNo, Request(callNo, [Str(text), Misc(misc), list])) + later) ==
            Ok(Decoded(refNo, callNo, [Str(text), Misc(Stripped(misc)), list]), [NEWLINE] + later)
  {
    TextMiscListTyped(text, misc, list, t);
    TextMiscListAsSent(text, misc, list);
    RequestDecodes(s, refNo, Request(callNo, [Str(text), Misc(misc), list]), later);
  }

  /** create-text tells the server the text, the recipients and comment links, and the aux-items; the newline is
      left behind the closing brace. */
  lemma CreateTextDecodes(refNo: nat, text: bytes, misc: Cooked<Value>, auxItems: seq<Value>, later: bytes)
    requires SendableMisc(misc)
    requires forall i :: 0 <= i < |auxItems| ==> HasType(auxItems[i], AUX_ITEM_INPUT) && Plain(auxItems[i])
    ensures var req := Request(86, [Str(text), Misc(misc), Items(auxItems)]);
            Decode(SIGNATURES, RequestLine(refNo, req) + later) ==
            Ok(Decoded(refNo, 86, [Str(text), Misc(Stripped(misc)), Items(auxItems)]), [NEWLINE] + later)
  {
    TextMiscListDecodes(SIGNATURES, refNo, CREATE_TEXT, Array(AUX_ITEM_INPUT), text, misc, Items(auxItems), later);
  }

  /** local-to-global asks for the texts of a conference from a local number on. */
  lemma LocalToGlobalDecodes(refNo: nat, conf: nat, first: nat, n: nat, later: bytes)
    ensures Decode(SIGNATURES, RequestLine(refNo, Request(103, [Number(conf), Number(first), Number(n)])) + later) ==
            Ok(Decoded(refNo, 103, [Number(conf), Number(first), Number(n)]), later)
  {
    var args := [Number(conf), Number(first), Number(n)];
    HaveTypesPointwise(args, LOCAL_TO_GLOBAL_ARGS);
    ThreeAsSent(Number(conf), Number(first), Number(n));
    RequestDecodes(SIGNATURES, refNo, Request(103, args), later);
  }

  // ---------- Text mappings ----------

  /** A text mapping as the server writes it, with the block in one of its two forms. */
  function RawMapping(begin: nat, end: nat, later: nat, tag: nat, block: Value): Value {
    Fields([Number(begin), Number(end), Number(later), Variant(tag, block)])
  }

  /** Local numbers from `first` on, with the global numbers. */
  function Block(first: nat, texts: seq<nat>): (r: seq<(nat, nat)>)
    ensures |r| == |texts| && forall i :: 0 <= i < |texts| ==> r[i] == (first + i, texts[i])
  {
    seq(|texts|, i requires 0 <= i < |texts| => (first + i, texts[i]))
  }

  lemma RawMappingWritable(arms: Arms, begin: nat, end: nat, later: nat, tag: nat, block: Value)
    requires ArmWritable(block, arms, tag)
    ensures AllWritable(RawMapping(begin, end, later, tag, block).parts, [Natural, Natural, Natural, Tagged(arms)])
  {
    AllWritableEach(RawMapping(begin, end, later, tag, block).parts, [Natural, Natural, Natural, Tagged(arms)]);
  }

  lemma MappingAsSent(begin: nat, end: nat, later: nat, tag: nat, block: Value)
    ensures var entries := EntriesOf(AsSent(block));
            MappingOf(AsSent(RawMapping(begin, end, later, tag, block)))
            == Mapping(begin, end, later, entries, Induced(entries))
  {
    var parts := RawMapping(begin, end, later, tag, block).parts;
    forall i | 0 <= i < 4 ensures AllAsSent(parts)[i] == AsSent(parts[i]) {
      AllAsSentAt(parts, i);
    }
  }

  /** A mapping as the server writes it, with empty lists as stars or not, parses to the pairs its block lists,
      whichever tag announced the block. */
  lemma MappingParses(arms: Arms, begin: nat, end: nat, later: nat, tag: nat, block: Value, after: bytes)
    requires PrintableArms(arms) && ArmWritable(block, arms, tag) && !Swallows(block)
    requires after != [] && IsSpace(after[0])
    ensures var entries := EntriesOf(AsSent(block));
            Parse(Converted(Record([Natural, Natural, Natural, Tagged(arms)]), BuildTextMapping),
                  Print(RawMapping(begin, end, later, tag, block)) + after)
            == Ok(TextMap(Mapping(begin, end, later, entries, Induced(entries))), after)
  {
    var raw := RawMapping(begin, end, later, tag, block);
    var t := Record([Natural, Natural, Natural, Tagged(arms)]);
    RawMappingWritable(arms, begin, end, later, tag, block);
    assert !Swallows(raw) by {
      assert !Swallows(raw.parts[3]);
    }
    RoundTrip(t, raw, after);
    MappingAsSent(begin, end, later, tag, block);
  }

  lemma SparseIsTyped(first: nat, texts: seq<nat>)
    ensures HasType(SparseOf(first, texts), SPARSE_BLOCK) && Plain(SparseOf(first, texts))
    ensures !Swallows(SparseOf(first, texts)) && EntriesOf(SparseOf(first, texts)) == Block(first, texts)
  {
    var sparse := SparseOf(first, texts);
    forall i | 0 <= i < |texts| ensures HasType(sparse.elems[i], TEXT_NUMBER_PAIR) && Plain(sparse.elems[i]) {
      HaveTypesPointwise(sparse.elems[i].parts, TEXT_NUMBER_PAIR.fields);
    }
  }

  lemma DenseIsTyped(first: nat, texts: seq<nat>)
    ensures HasType(DenseOf(first, texts), DENSE_BLOCK) && Plain(DenseOf(first, texts))
    ensures !Swallows(DenseOf(first, texts)) && EntriesOf(DenseOf(first, texts)) == Block(first, texts)
  {
    HaveTypesPointwise(DenseOf(first, texts).parts, DENSE_BLOCK.fields);
  }

  lemma SparseIsWritable(first: nat, texts: seq<nat>, arms: Arms)
    requires HasArmType(SparseOf(first, texts), arms, 0)
    ensures var block := SparseOf(first, texts);
            ArmWritable(block, arms, 0) && !Swallows(block) && EntriesOf(AsSent(block)) == Block(first, texts)
  {
    SparseIsTyped(first, texts);
    PlainAsSent(SparseOf(first, texts));
    TypedArmIsWritable(SparseOf(first, texts), arms, 0);
  }

  lemma DenseIsWritable(first: nat, texts: seq<nat>, arms: Arms)
    requires HasArmType(DenseOf(first, texts), arms, 1)
    ensures var block := DenseOf(first, texts);
            ArmWritable(block, arms, 1) && !Swallows(block) && EntriesOf(AsSent(block)) == Block(first, texts)
  {
    DenseIsTyped(first, texts);
    PlainAsSent(DenseOf(first, texts));
    TypedArmIsWritable(DenseOf(first, texts), arms, 1);
  }

  lemma BothFormsOf(t: WireType, arms: Arms, begin: nat, end: nat, later: nat, first: nat, texts: seq<nat>,
                    after: bytes)
    requires t == Converted(Record([Natural, Natural, Natural, Tagged(arms)]), BuildTextMapping) && PrintableArms(arms)
    requires HasArmType(SparseOf(first, texts), arms, 0) && HasArmType(DenseOf(first, texts), arms, 1)
    requires after != [] && IsSpace(after[0])
    ensures var mapping := TextMap(Mapping(begin, end, later, Block(first, texts), Induced(Block(first, texts))));
            && Parse(t, Print(RawMapping(begin, end, later, 0, SparseOf(first, texts))) + after) == Ok(mapping, after)
            && Parse(t, Print(RawMapping(begin, end, later, 1, DenseOf(first, texts))) + after) == Ok(mapping, after)
  {
    SparseIsWritable(first, texts, arms);
    DenseIsWritable(first, texts, arms);
    MappingParses(arms, begin, end, later, 0, SparseOf(first, texts), after);
    MappingParses(arms, begin, end, later, 1, DenseOf(first, texts), after);
  }

  /** The alternatives of a text mapping. */
  function BlockArms(): Arms {
    Arm({0}, SPARSE_BLOCK, Arm({1}, DENSE_BLOCK, Reject))
  }

  lemma BlocksHaveArms(first: nat, texts: seq<nat>)
    ensures PrintableArms(BlockArms())
    ensures HasArmType(SparseOf(first, texts), BlockArms(), 0) && HasArmType(DenseOf(first, texts), BlockArms(), 1)
  {
    SparseIsTyped(first, texts);
    DenseIsTyped(first, texts);
    assert PrintableType(SPARSE_BLOCK) && PrintableType(DENSE_BLOCK);
    assert HasArmType(DenseOf(first, texts), Arm({1}, DENSE_BLOCK, Reject), 1);
  }

  /** The sparse and the dense encoding of the same block parse to the same mapping: the same list, and the dictionary
      it induces. */
  lemma BothFormsParseAlike(begin: nat, end: nat, later: nat, first: nat, texts: seq<nat>, after: bytes)
    requires after != [] && IsSpace(after[0])
    ensures var mapping := TextMap(Mapping(begin, end, later, Block(first, texts), Induced(Block(first, texts))));
            && Parse(TEXT_MAPPING, Print(RawMapping(begin, end, later, 0, SparseOf(first, texts))) + after)
            == Ok(mapping, after)
            && Parse(TEXT_MAPPING, Print(RawMapping(begin, end, later, 1, DenseOf(first, texts))) + after)
            == Ok(mapping, after)
  {
    BlocksHaveArms(first, texts);
    BothFormsOf(TEXT_MAPPING, BlockArms(), begin, end, later, first, texts, after);
  }
}
