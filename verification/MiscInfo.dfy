/** Misc-Info: the flat list of tagged items that Protocol A sends, and its cooked form.

    `Cook` is the segmentation the client is meant to compute; `CookLoop` and the two decode_additional loops
    are the client's own code. */
module MiscInfo {
  import opened Options

  const MI_RECPT: nat := 0
  const MI_CC_RECPT: nat := 1
  const MI_COMM_TO: nat := 2
  const MI_COMM_IN: nat := 3
  const MI_FOOTN_TO: nat := 4
  const MI_FOOTN_IN: nat := 5
  const MI_LOC_NO: nat := 6
  const MI_REC_TIME: nat := 7
  const MI_SENT_BY: nat := 8
  const MI_SENT_AT: nat := 9
  const MI_BCC_RECPT: nat := 15

  /** RawMiscInfo; the data is a number, or a time for the kinds 7 and 9. */
  datatype Item<+D> = Item(kind: nat, data: D)

  datatype Recipient<+D> =
    Recipient(kind: nat, recpt: D, locNo: Option<D>, recTime: Option<D>, sentBy: Option<D>, sentAt: Option<D>)

  datatype CommentTo<+D> = CommentTo(kind: nat, textNo: D, sentBy: Option<D>, sentAt: Option<D>)

  datatype CommentIn<+D> = CommentIn(kind: nat, textNo: D)

  datatype Cooked<+D> =
    Cooked(recipients: seq<Recipient<D>>, commentTos: seq<CommentTo<D>>, commentIns: seq<CommentIn<D>>)
  {
    function Append(later: Cooked<D>): Cooked<D> {
      Cooked(recipients + later.recipients, commentTos + later.commentTos, commentIns + later.commentIns)
    }

    /** `this` followed by what `later` holds. */
    function Then(later: Option<Cooked<D>>): Option<Cooked<D>> {
      if later.None? then None else Some(Append(later.value))
    }
  }

  predicate IsRecipient(kind: nat) {
    kind == MI_RECPT || kind == MI_CC_RECPT || kind == MI_BCC_RECPT
  }

  predicate IsCommentTo(kind: nat) {
    kind == MI_COMM_TO || kind == MI_FOOTN_TO
  }

  predicate IsCommentIn(kind: nat) {
    kind == MI_COMM_IN || kind == MI_FOOTN_IN
  }

  predicate IsHead(kind: nat) {
    IsRecipient(kind) || IsCommentTo(kind) || IsCommentIn(kind)
  }

  /** Which additional items may follow a head. */
  predicate MayHold(head: nat, kind: nat) {
    if IsRecipient(head) then kind in {MI_LOC_NO, MI_REC_TIME, MI_SENT_BY, MI_SENT_AT}
    else IsCommentTo(head) && kind in {MI_SENT_BY, MI_SENT_AT}
  }

  predicate AllHeld<D>(head: nat, segment: seq<Item<D>>) {
    forall i :: 0 <= i < |segment| ==> MayHold(head, segment[i].kind)
  }

  /** The data of the last item of the given kind. */
  function Last<D>(segment: seq<Item<D>>, kind: nat): Option<D> {
    if segment == [] then None
    else if segment[|segment| - 1].kind == kind then Some(segment[|segment| - 1].data)
    else Last(segment[..|segment| - 1], kind)
  }

  /** Where the last item of a kind is. */
  lemma {:induction false} LatestAt<D>(segment: seq<Item<D>>, kind: nat) returns (j: nat)
    requires Last(segment, kind).Some?
    ensures j < |segment| && segment[j] == Item(kind, Last(segment, kind).value)
    ensures forall k :: j < k < |segment| ==> segment[k].kind != kind
  {
    var n := |segment| - 1;
    if segment[n].kind == kind {
      return n;
    }
    var before := segment[..n];
    j := LatestAt(before, kind);
    forall k | j < k < |segment| ensures segment[k].kind != kind {
      assert k < n ==> segment[k] == before[k];
    }
  }

  lemma {:induction false} NoneOfKind<D>(segment: seq<Item<D>>, kind: nat, j: nat)
    requires Last(segment, kind).None? && j < |segment|
    ensures segment[j].kind != kind
  {
    if j < |segment| - 1 {
      NoneOfKind(segment[..|segment| - 1], kind, j);
    }
  }

  lemma {:induction false} LastIsLatest<D>(segment: seq<Item<D>>, kind: nat)
    ensures Last(segment, kind).None? <==> forall j :: 0 <= j < |segment| ==> segment[j].kind != kind
    ensures Last(segment, kind).Some? ==>
              exists j :: 0 <= j < |segment| && segment[j] == Item(kind, Last(segment, kind).value) &&
                          forall k :: j < k < |segment| ==> segment[k].kind != kind
  {
    if Last(segment, kind).Some? {
      var j := LatestAt(segment, kind);
      assert segment[j].kind == kind;
    } else {
      forall j: nat | j < |segment| ensures segment[j].kind != kind {
        NoneOfKind(segment, kind, j);
      }
    }
  }

  /** How many items precede the first head. */
  function Extent<D>(raw: seq<Item<D>>): (n: nat)
    ensures n <= |raw|
    ensures forall i :: 0 <= i < n ==> !IsHead(raw[i].kind)
    ensures n < |raw| ==> IsHead(raw[n].kind)
  {
    if raw == [] || IsHead(raw[0].kind) then 0 else 1 + Extent(raw[1..])
  }

  lemma {:induction false} ExtentReaches<D>(raw: seq<Item<D>>, n: nat)
    requires n <= |raw| && forall i :: 0 <= i < n ==> !IsHead(raw[i].kind)
    ensures n <= Extent(raw)
    ensures n == |raw| || IsHead(raw[n].kind) ==> n == Extent(raw)
  {
    if n > 0 {
      ExtentReaches(raw[1..], n - 1);
    }
  }

  function MakeRecipient<D>(head: Item<D>, segment: seq<Item<D>>): Recipient<D> {
    Recipient(head.kind, head.data, Last(segment, MI_LOC_NO), Last(segment, MI_REC_TIME),
              Last(segment, MI_SENT_BY), Last(segment, MI_SENT_AT))
  }

  function MakeCommentTo<D>(head: Item<D>, segment: seq<Item<D>>): CommentTo<D> {
    CommentTo(head.kind, head.data, Last(segment, MI_SENT_BY), Last(segment, MI_SENT_AT))
  }

  /** One head with its segment. */
  function Single<D>(head: Item<D>, segment: seq<Item<D>>): Cooked<D> {
    if IsRecipient(head.kind) then Cooked([MakeRecipient(head, segment)], [], [])
    else if IsCommentTo(head.kind) then Cooked([], [MakeCommentTo(head, segment)], [])
    else if IsCommentIn(head.kind) then Cooked([], [], [CommentIn(head.kind - 1, head.data)])
    else Cooked([], [], [])
  }

  /** The segmentation: each head takes the items up to the next head. */
  function Cook<D>(raw: seq<Item<D>>): Option<Cooked<D>>
    decreases |raw|
  {
    if raw == [] then Some(Cooked([], [], []))
    else if !IsHead(raw[0].kind) then None
    else
      var n := Extent(raw[1..]);
      var segment := raw[1..1 + n];
      if !AllHeld(raw[0].kind, segment) then None
      else Single(raw[0], segment).Then(Cook(raw[1 + n..]))
  }

  // ---------- What the segmentation means ----------

  /** The head that owns item i: the nearest one at or before it, -1 when there is none. */
  function Owner<D>(raw: seq<Item<D>>, i: nat): (h: int)
    requires i < |raw|
    ensures -1 <= h <= i
    ensures 0 <= h ==> IsHead(raw[h].kind)
    ensures forall j :: h < j <= i ==> !IsHead(raw[j].kind)
  {
    if IsHead(raw[i].kind) then i else if i == 0 then -1 else Owner(raw, i - 1)
  }

  ghost predicate Owned<D>(raw: seq<Item<D>>, i: nat)
    requires i < |raw|
  {
    var h := Owner(raw, i);
    h == i || (0 <= h && MayHold(raw[h].kind, raw[i].kind))
  }

  ghost predicate Accepts<D>(raw: seq<Item<D>>) {
    forall i: nat :: i < |raw| ==> Owned(raw, i)
  }

  lemma {:induction false} OwnerIsNearest<D>(raw: seq<Item<D>>, i: nat, h: int)
    requires i < |raw| && -1 <= h <= i
    requires 0 <= h ==> IsHead(raw[h].kind)
    requires forall j :: h < j <= i ==> !IsHead(raw[j].kind)
    ensures Owner(raw, i) == h
  {
  }

  /** Owners do not look behind a head. */
  lemma OwnedShift<D>(raw: seq<Item<D>>, k: nat, i: nat)
    requires k + i < |raw| && IsHead(raw[k].kind)
    ensures Owned(raw, k + i) <==> Owned(raw[k..], i)
  {
    var rest := raw[k..];
    var h := if Owner(rest, i) < 0 then 0 else Owner(rest, i);
    assert rest[0] == raw[k];
    forall j | k + h < j <= k + i ensures !IsHead(raw[j].kind) {
      assert rest[j - k] == raw[j];
    }
    OwnerIsNearest(raw, k + i, k + h);
  }

  /** Within the first segment, the owner is the first item. */
  lemma OwnedByFirst<D>(raw: seq<Item<D>>, i: nat)
    requires raw != [] && IsHead(raw[0].kind) && 0 < i <= Extent(raw[1..])
    ensures Owned(raw, i) <==> MayHold(raw[0].kind, raw[i].kind)
  {
    forall j | 0 < j <= i ensures !IsHead(raw[j].kind) {
      assert raw[j] == raw[1..][j - 1];
    }
    OwnerIsNearest(raw, i, 0);
  }

  /** A list is accepted when its first segment is and the rest is. */
  lemma AcceptsSplit<D>(raw: seq<Item<D>>, k: nat)
    requires raw != [] && IsHead(raw[0].kind) && k == 1 + Extent(raw[1..])
    ensures Accepts(raw) <==> AllHeld(raw[0].kind, raw[1..k]) && Accepts(raw[k..])
  {
    var rest, first := raw[k..], raw[1..k];
    assert k < |raw| ==> raw[k] == raw[1..][k - 1];
    if Accepts(raw) {
      forall i: nat | i < k - 1 ensures MayHold(raw[0].kind, first[i].kind) {
        assert Owned(raw, 1 + i) && first[i] == raw[1 + i];
        OwnedByFirst(raw, 1 + i);
      }
      forall i: nat | i < |rest| ensures Owned(rest, i) {
        assert Owned(raw, k + i);
        OwnedShift(raw, k, i);
      }
    }
    if AllHeld(raw[0].kind, first) && Accepts(rest) {
      forall i: nat | i < |raw| ensures Owned(raw, i) {
        if 0 < i < k {
          assert first[i - 1] == raw[i];
          OwnedByFirst(raw, i);
        } else if k <= i {
          assert Owned(rest, i - k);
          OwnedShift(raw, k, i - k);
        }
      }
    }
  }

  /** The list is rejected exactly when some item has no owner allowed to hold it. */
  lemma {:induction false} CookAccepts<D>(raw: seq<Item<D>>)
    ensures Cook(raw).Some? <==> Accepts(raw)
    decreases |raw|
  {
    if raw == [] {
    } else if !IsHead(raw[0].kind) {
      assert !Owned(raw, 0);
    } else {
      var n := Extent(raw[1..]);
      AcceptsSplit(raw, 1 + n);
      CookAccepts(raw[1 + n..]);
    }
  }

  /** The kinds are those of recipients and of comments. */
  predicate SendableMisc<D>(c: Cooked<D>) {
    && (forall i :: 0 <= i < |c.recipients| ==> IsRecipient(c.recipients[i].kind))
    && (forall i :: 0 <= i < |c.commentTos| ==> IsCommentTo(c.commentTos[i].kind))
  }

  lemma AppendSendable<D>(a: Cooked<D>, b: Cooked<D>)
    requires SendableMisc(a) && SendableMisc(b)
    ensures SendableMisc(a.Append(b))
  {
  }

  lemma SingleSendable<D>(head: Item<D>, segment: seq<Item<D>>)
    ensures SendableMisc(Single(head, segment))
  {
  }

  /** Whatever was received can be sent. */
  lemma {:induction false} CookSendable<D>(raw: seq<Item<D>>)
    ensures Cook(raw).Some? ==> SendableMisc(Cook(raw).value)
    decreases |raw|
  {
    if raw != [] && IsHead(raw[0].kind) {
      var n := Extent(raw[1..]);
      CookSendable(raw[1 + n..]);
      var later := Cook(raw[1 + n..]);
      SingleSendable(raw[0], raw[1..1 + n]);
      if later.Some? {
        AppendSendable(Single(raw[0], raw[1..1 + n]), later.value);
      }
    }
  }

  /** The kinds by their numbers. */
  lemma KindsAre(head: nat, kind: nat)
    ensures IsRecipient(head) <==> head in {0, 1, 15}
    ensures IsCommentTo(head) <==> head in {2, 4}
    ensures IsCommentIn(head) <==> head in {3, 5}
    ensures IsHead(head) <==> head in {0, 1, 2, 3, 4, 5, 15}
    ensures MayHold(head, kind) <==>
            (head in {0, 1, 15} && kind in {6, 7, 8, 9}) || (head in {2, 4} && kind in {8, 9})
  {
  }

  /** What the first head contributes when the items behind it run to the next head, which `rest` begins with. */
  lemma {:induction false} CookFirst<D>(head: Item<D>, segment: seq<Item<D>>, rest: seq<Item<D>>)
    requires IsHead(head.kind) && AllHeld(head.kind, segment) && (rest != [] ==> IsHead(rest[0].kind))
    ensures Cook([head] + segment + rest) == Single(head, segment).Then(Cook(rest))
  {
    var raw := [head] + segment + rest;
    assert raw[1..] == segment + rest;
    ExtentReaches(raw[1..], |segment|);
    assert raw[1..1 + |segment|] == segment && raw[1 + |segment|..] == rest;
  }

  lemma NoneAdded<D>(c: Cooked<D>)
    ensures [] + c.recipients == c.recipients && [] + c.commentTos == c.commentTos && [] + c.commentIns == c.commentIns
  {
  }

  /** A recipient takes its local number, the time it was received, who sent it and when, each as it was told last. */
  lemma CookRecipient<D>(head: Item<D>, segment: seq<Item<D>>, rest: seq<Item<D>>)
    requires head.kind in {0, 1, 15} && forall i :: 0 <= i < |segment| ==> segment[i].kind in {6, 7, 8, 9}
    requires rest != [] ==> rest[0].kind in {0, 1, 2, 3, 4, 5, 15}
    ensures var r := Recipient(head.kind, head.data, Last(segment, 6), Last(segment, 7), Last(segment, 8),
                               Last(segment, 9));
            && (Cook(rest).None? ==> Cook([head] + segment + rest).None?)
            && (Cook(rest).Some? ==>
                  Cook([head] + segment + rest) ==
                  Some(Cook(rest).value.(recipients := [r] + Cook(rest).value.recipients)))
  {
    CookFirst(head, segment, rest);
    if Cook(rest).Some? {
      NoneAdded(Cook(rest).value);
    }
  }

  /** A comment-to takes who sent it and when. */
  lemma {:induction false} CookCommentTo<D>(head: Item<D>, segment: seq<Item<D>>, rest: seq<Item<D>>)
    requires head.kind in {2, 4} && forall i :: 0 <= i < |segment| ==> segment[i].kind in {8, 9}
    requires rest != [] ==> rest[0].kind in {0, 1, 2, 3, 4, 5, 15}
    ensures var to := CommentTo(head.kind, head.data, Last(segment, 8), Last(segment, 9));
            && (Cook(rest).None? ==> Cook([head] + segment + rest).None?)
            && (Cook(rest).Some? ==>
                  Cook([head] + segment + rest) ==
                  Some(Cook(rest).value.(commentTos := [to] + Cook(rest).value.commentTos)))
  {
    CookFirst(head, segment, rest);
    if Cook(rest).Some? {
      NoneAdded(Cook(rest).value);
    }
  }

  /** A comment-in takes nothing, and has the kind of the comment-to it mirrors. */
  lemma {:induction false} CookCommentIn<D>(head: Item<D>, rest: seq<Item<D>>)
    requires head.kind in {3, 5} && (rest != [] ==> rest[0].kind in {0, 1, 2, 3, 4, 5, 15})
    ensures var back := CommentIn(if head.kind == 3 then 2 else 4, head.data);
            && (Cook(rest).None? ==> Cook([head] + rest).None?)
            && (Cook(rest).Some? ==>
                  Cook([head] + rest) == Some(Cook(rest).value.(commentIns := [back] + Cook(rest).value.commentIns)))
  {
    CookFirst(head, [], rest);
    assert [head] + [] + rest == [head] + rest;
    if Cook(rest).Some? {
      NoneAdded(Cook(rest).value);
    }
  }

  /** Anything else behind a head, or in front of the first, is rejected. */
  lemma {:induction false} CookRejects<D>(before: seq<Item<D>>, head: Item<D>, segment: seq<Item<D>>, stray: Item<D>,
                                          rest: seq<Item<D>>)
    requires stray.kind !in {0, 1, 2, 3, 4, 5, 15}
    requires forall i :: 0 <= i < |segment| ==> segment[i].kind !in {0, 1, 2, 3, 4, 5, 15}
    requires head.kind in {0, 1, 2, 3, 4, 5, 15}
    requires head.kind in {0, 1, 15} ==> stray.kind !in {6, 7, 8, 9}
    requires head.kind in {2, 4} ==> stray.kind !in {8, 9}
    ensures Cook(before + [head] + segment + [stray] + rest) == None
    ensures Cook([stray] + rest) == None
  {
    var raw := before + [head] + segment + [stray] + rest;
    var h, i := |before|, |before| + 1 + |segment|;
    assert raw[h] == head && raw[i] == stray;
    forall j | h < j <= i ensures !IsHead(raw[j].kind) {
      assert j < i ==> raw[j] == segment[j - h - 1];
    }
    OwnerIsNearest(raw, i, h);
    assert !Owned(raw, i);
    CookAccepts(raw);
  }

  /** The in-order projection of the head items, each with the items before the next head. */
  function Projection<D>(raw: seq<Item<D>>): Cooked<D> {
    if raw == [] then Cooked([], [], [])
    else
      var later := Projection(raw[1..]);
      if !IsHead(raw[0].kind) then later
      else Single(raw[0], raw[1..1 + Extent(raw[1..])]).Then(Some(later)).value
  }

  lemma {:induction false} ProjectionSkips<D>(raw: seq<Item<D>>)
    ensures Projection(raw) == Projection(raw[Extent(raw)..])
  {
    if raw != [] && !IsHead(raw[0].kind) {
      ProjectionSkips(raw[1..]);
      assert raw[Extent(raw)..] == raw[1..][Extent(raw[1..])..];
    } else {
      assert raw[Extent(raw)..] == raw;
    }
  }

  /** An accepted list cooks to the in-order projection of its heads. */
  lemma {:induction false} CookProjects<D>(raw: seq<Item<D>>)
    requires Cook(raw).Some?
    ensures Cook(raw).value == Projection(raw)
    decreases |raw|
  {
    if raw != [] {
      var n := Extent(raw[1..]);
      CookProjects(raw[1 + n..]);
      ProjectionSkips(raw[1..]);
      assert raw[1..][n..] == raw[1 + n..];
    }
  }

  // ---------- The loops ----------

  lemma LastOfSnoc<D>(segment: seq<Item<D>>, item: Item<D>, kind: nat)
    ensures Last(segment + [item], kind) == if item.kind == kind then Some(item.data) else Last(segment, kind)
  {
    assert (segment + [item])[..|segment|] == segment;
  }

  lemma LastsOfSnoc<D>(raw: seq<Item<D>>, start: nat, i: nat)
    requires start <= i < |raw|
    ensures forall kind: nat :: Last(raw[start..i + 1], kind) ==
              if raw[i].kind == kind then Some(raw[i].data) else Last(raw[start..i], kind)
  {
    assert raw[start..i + 1] == raw[start..i] + [raw[i]];
    forall kind: nat
      ensures Last(raw[start..i] + [raw[i]], kind) ==
              if raw[i].kind == kind then Some(raw[i].data) else Last(raw[start..i], kind)
    {
      LastOfSnoc(raw[start..i], raw[i], kind);
    }
  }

  /** MIRecipient.decode_additional */
  method DecodeRecipient<D>(r: Recipient<D>, raw: seq<Item<D>>, start: nat) returns (out: Recipient<D>, end: nat)
    requires IsRecipient(r.kind) && start <= |raw|
    requires r == Recipient(r.kind, r.recpt, None, None, None, None)
    ensures start <= end <= |raw|
    ensures forall j :: start <= j < end ==> raw[j].kind in {6, 7, 8, 9}
    ensures end < |raw| ==> raw[end].kind !in {6, 7, 8, 9}
    ensures out.kind == r.kind && out.recpt == r.recpt
    ensures out.locNo == Last(raw[start..end], 6) && out.recTime == Last(raw[start..end], 7)
    ensures out.sentBy == Last(raw[start..end], 8) && out.sentAt == Last(raw[start..end], 9)
  {
    out, end := r, start;
    while end < |raw|
      invariant start <= end <= |raw|
      invariant forall j :: start <= j < end ==> raw[j].kind in {6, 7, 8, 9}
      invariant out.kind == r.kind && out.recpt == r.recpt
      invariant out.locNo == Last(raw[start..end], 6) && out.recTime == Last(raw[start..end], 7)
      invariant out.sentBy == Last(raw[start..end], 8) && out.sentAt == Last(raw[start..end], 9)
    {
      LastsOfSnoc(raw, start, end);
      if raw[end].kind == MI_LOC_NO {
        out := out.(locNo := Some(raw[end].data));
      } else if raw[end].kind == MI_REC_TIME {
        out := out.(recTime := Some(raw[end].data));
      } else if raw[end].kind == MI_SENT_BY {
        out := out.(sentBy := Some(raw[end].data));
      } else if raw[end].kind == MI_SENT_AT {
        out := out.(sentAt := Some(raw[end].data));
      } else {
        return;
      }
      end := end + 1;
    }
  }

  /** MICommentTo.decode_additional */
  method DecodeCommentTo<D>(c: CommentTo<D>, raw: seq<Item<D>>, start: nat) returns (out: CommentTo<D>, end: nat)
    requires IsCommentTo(c.kind) && start <= |raw|
    requires c == CommentTo(c.kind, c.textNo, None, None)
    ensures start <= end <= |raw|
    ensures forall j :: start <= j < end ==> raw[j].kind in {8, 9}
    ensures end < |raw| ==> raw[end].kind !in {8, 9}
    ensures out.kind == c.kind && out.textNo == c.textNo
    ensures out.sentBy == Last(raw[start..end], 8) && out.sentAt == Last(raw[start..end], 9)
  {
    out, end := c, start;
    while end < |raw|
      invariant start <= end <= |raw|
      invariant forall j :: start <= j < end ==> raw[j].kind in {8, 9}
      invariant out.kind == c.kind && out.textNo == c.textNo
      invariant out.sentBy == Last(raw[start..end], 8) && out.sentAt == Last(raw[start..end], 9)
    {
      LastsOfSnoc(raw, start, end);
      if raw[end].kind == MI_SENT_BY {
        out := out.(sentBy := Some(raw[end].data));
      } else if raw[end].kind == MI_SENT_AT {
        out := out.(sentAt := Some(raw[end].data));
      } else {
        return;
      }
      end := end + 1;
    }
  }

  /** A head whose additional items run to the next head, or to the end of the list. */
  lemma CookSegment<D>(raw: seq<Item<D>>, i: nat, end: nat)
    requires i < end <= |raw| && IsHead(raw[i].kind)
    requires forall j :: i < j < end ==> MayHold(raw[i].kind, raw[j].kind)
    requires end < |raw| ==> IsHead(raw[end].kind)
    ensures Cook(raw[i..]) == Single(raw[i], raw[i + 1..end]).Then(Cook(raw[end..]))
  {
    var segment, rest := raw[i + 1..end], raw[end..];
    assert raw[i..] == [raw[i]] + segment + rest;
    CookFirst(raw[i], segment, rest);
  }

  /** A head whose additional items run into one it may not hold. */
  lemma CookStray<D>(raw: seq<Item<D>>, i: nat, end: nat)
    requires i < end < |raw| && IsHead(raw[i].kind)
    requires forall j :: i < j <= end ==> !IsHead(raw[j].kind)
    requires !MayHold(raw[i].kind, raw[end].kind)
    ensures Cook(raw[i..]) == None
  {
    var here := raw[i..];
    ExtentReaches(here[1..], end - i);
    var segment := here[1..1 + Extent(here[1..])];
    assert segment[end - i - 1] == raw[end];
    assert !AllHeld(raw[i].kind, segment);
  }

  lemma CookStep<D>(raw: seq<Item<D>>, i: nat, end: nat)
    requires i < end <= |raw| && IsHead(raw[i].kind)
    requires forall j :: i < j < end ==> MayHold(raw[i].kind, raw[j].kind)
    requires end < |raw| ==> !MayHold(raw[i].kind, raw[end].kind)
    ensures Cook(raw[i..]) == Single(raw[i], raw[i + 1..end]).Then(Cook(raw[end..]))
  {
    if end == |raw| || IsHead(raw[end].kind) {
      CookSegment(raw, i, end);
    } else {
      CookStray(raw, i, end);
    }
  }

  lemma AppendAssociates<D>(a: Cooked<D>, b: Cooked<D>, c: Option<Cooked<D>>)
    ensures a.Then(b.Then(c)) == a.Append(b).Then(c)
  {
    if c.Some? {
      assert a.recipients + (b.recipients + c.value.recipients) == a.recipients + b.recipients + c.value.recipients;
      assert a.commentTos + (b.commentTos + c.value.commentTos) == a.commentTos + b.commentTos + c.value.commentTos;
      assert a.commentIns + (b.commentIns + c.value.commentIns) == a.commentIns + b.commentIns + c.value.commentIns;
    }
  }

  lemma AppendNothing<D>(a: Cooked<D>)
    ensures a.Append(Cooked([], [], [])) == a
    ensures Cooked([], [], []).Append(a) == a
  {
  }

  /** Appending one cooked item to the list it belongs to. */
  function Add<D>(c: Cooked<D>, head: Item<D>, segment: seq<Item<D>>): Cooked<D> {
    if IsRecipient(head.kind) then c.(recipients := c.recipients + [MakeRecipient(head, segment)])
    else if IsCommentTo(head.kind) then c.(commentTos := c.commentTos + [MakeCommentTo(head, segment)])
    else c.(commentIns := c.commentIns + [CommentIn(if head.kind == 0 then 0 else head.kind - 1, head.data)])
  }

  lemma AddStep<D>(c: Cooked<D>, raw: seq<Item<D>>, i: nat, end: nat)
    requires i < end <= |raw| && IsHead(raw[i].kind)
    requires forall j :: i < j < end ==> MayHold(raw[i].kind, raw[j].kind)
    requires end < |raw| ==> !MayHold(raw[i].kind, raw[end].kind)
    ensures c.Then(Cook(raw[i..])) == Add(c, raw[i], raw[i + 1..end]).Then(Cook(raw[end..]))
  {
    CookStep(raw, i, end);
    AppendAssociates(c, Single(raw[i], raw[i + 1..end]), Cook(raw[end..]));
    assert c.Append(Single(raw[i], raw[i + 1..end])) == Add(c, raw[i], raw[i + 1..end]);
  }

  lemma AddRecipient<D>(c: Cooked<D>, raw: seq<Item<D>>, i: nat, end: nat, r: Recipient<D>)
    requires i < end <= |raw| && IsRecipient(raw[i].kind)
    requires forall j :: i < j < end ==> raw[j].kind in {6, 7, 8, 9}
    requires end < |raw| ==> raw[end].kind !in {6, 7, 8, 9}
    requires r.kind == raw[i].kind && r.recpt == raw[i].data
    requires r.locNo == Last(raw[i + 1..end], 6) && r.recTime == Last(raw[i + 1..end], 7)
    requires r.sentBy == Last(raw[i + 1..end], 8) && r.sentAt == Last(raw[i + 1..end], 9)
    ensures c.Then(Cook(raw[i..])) == c.(recipients := c.recipients + [r]).Then(Cook(raw[end..]))
  {
    AddStep(c, raw, i, end);
  }

  lemma AddCommentTo<D>(c: Cooked<D>, raw: seq<Item<D>>, i: nat, end: nat, to: CommentTo<D>)
    requires i < end <= |raw| && IsCommentTo(raw[i].kind)
    requires forall j :: i < j < end ==> raw[j].kind in {8, 9}
    requires end < |raw| ==> raw[end].kind !in {8, 9}
    requires to.kind == raw[i].kind && to.textNo == raw[i].data
    requires to.sentBy == Last(raw[i + 1..end], 8) && to.sentAt == Last(raw[i + 1..end], 9)
    ensures c.Then(Cook(raw[i..])) == c.(commentTos := c.commentTos + [to]).Then(Cook(raw[end..]))
  {
    AddStep(c, raw, i, end);
  }

  /** The loop of CookedMiscInfo.parse. */
  method CookLoop<D>(raw: seq<Item<D>>) returns (cooked: Option<Cooked<D>>)
    ensures cooked == Cook(raw)
  {
    var obj: Cooked<D> := Cooked([], [], []);
    var i := 0;
    assert raw[0..] == raw;
    if Cook(raw).Some? {
      AppendNothing(Cook(raw).value);
    }
    while i < |raw|
      invariant i <= |raw|
      invariant Cook(raw) == obj.Then(Cook(raw[i..]))
      decreases |raw| - i
    {
      if IsRecipient(raw[i].kind) {
        var r, end := DecodeRecipient(Recipient(raw[i].kind, raw[i].data, None, None, None, None), raw, i + 1);
        AddRecipient(obj, raw, i, end, r);
        obj := obj.(recipients := obj.recipients + [r]);
        i := end;
      } else if IsCommentTo(raw[i].kind) {
        var c, end := DecodeCommentTo(CommentTo(raw[i].kind, raw[i].data, None, None), raw, i + 1);
        AddCommentTo(obj, raw, i, end, c);
        obj := obj.(commentTos := obj.commentTos + [c]);
        i := end;
      } else if IsCommentIn(raw[i].kind) {
        AddStep(obj, raw, i, i + 1);
        obj := obj.(commentIns := obj.commentIns + [CommentIn(raw[i].kind - 1, raw[i].data)]);
        i := i + 1;
      } else {
        return None;
      }
    }
    assert raw[i..] == [];
    AppendNothing(obj);
    return Some(obj);
  }
}
