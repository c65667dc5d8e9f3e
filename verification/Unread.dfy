/** The unread texts of a conference, computed from read ranges by paging through local-to-global mappings. */
module Unread {
  import opened Wire
  import opened ReadRanges

  /** The texts of a conference: existing local numbers with their global numbers, and the highest local number
      ever used. */
  datatype Conference = Conference(texts: map<nat, nat>, highest: nat) {
    ghost predicate Valid() {
      forall l :: l in texts ==> 1 <= l <= highest && texts[l] != 0
    }
  }

  /** The answer to local-to-global: a mapping, or the error no-such-local-text. */
  datatype Reply = NoSuchLocalText | Mapped(mapping: Mapping)

  type Server = (nat, nat) -> Reply

  /** The list names every existing text of [first, end) in ascending order; other numbers may be listed as 0. */
  ghost predicate Faithful(conf: Conference, first: nat, end: nat, list: seq<(nat, nat)>) {
    && (forall i :: 0 <= i < |list| ==> IsEntry(conf, first, end, list[i]))
    && (forall i, j :: 0 <= i < j < |list| ==> list[i].0 < list[j].0)
    && (forall l :: l in conf.texts && first <= l < end ==> Lists(list, l))
  }

  predicate IsEntry(conf: Conference, first: nat, end: nat, e: (nat, nat)) {
    first <= e.0 < end && e.1 == if e.0 in conf.texts then conf.texts[e.0] else 0
  }

  ghost predicate Lists(list: seq<(nat, nat)>, l: nat) {
    exists i :: 0 <= i < |list| && list[i].0 == l
  }

  ghost predicate NoTextsFrom(conf: Conference, first: nat) {
    forall l :: l in conf.texts ==> l < first
  }

  /** What every server owes: a mapping starts where it was asked to, reaches at least as far as asked or to the end,
      and tells whether later texts exist.  It may reach further: n counts existing texts. */
  ghost predicate Honest(conf: Conference, first: nat, n: nat, reply: Reply) {
    match reply
    case NoSuchLocalText => NoTextsFrom(conf, first)
    case Mapped(m) =>
      && first < m.rangeEnd <= conf.highest + 1
      && (first + n <= m.rangeEnd || m.rangeEnd == conf.highest + 1)
      && Faithful(conf, first, m.rangeEnd, m.entries)
      && if m.laterTextsExist == 0 then NoTextsFrom(conf, m.rangeEnd) else m.rangeEnd <= conf.highest
  }

  ghost predicate HonestServer(conf: Conference, server: Server) {
    conf.Valid() && forall first: nat, n: nat :: HonestAt(conf, server, first, n)
  }

  ghost predicate HonestAt(conf: Conference, server: Server, first: nat, n: nat) {
    1 <= first && 1 <= n ==> Honest(conf, first, n, server(first, n))
  }

  /** A server that counts local numbers, and never maps more of them than asked for. */
  ghost predicate ExactServer(conf: Conference, server: Server) {
    && HonestServer(conf, server)
    && forall first: nat, n: nat :: ExactAt(server, first, n)
  }

  ghost predicate ExactAt(server: Server, first: nat, n: nat) {
    1 <= first && 1 <= n && server(first, n).Mapped? ==> server(first, n).mapping.rangeEnd <= first + n
  }

  /** [e[1] for e in list if e[1] != 0] */
  function NonZero(list: seq<(nat, nat)>): seq<nat> {
    if list == [] then [] else (if list[0].1 != 0 then [list[0].1] else []) + NonZero(list[1..])
  }

  /** The global numbers of the texts in [first, end), ascending by local number. */
  function Globals(conf: Conference, first: nat, end: nat): seq<nat>
    decreases end - first
  {
    if end <= first then []
    else (if first in conf.texts then [conf.texts[first]] else []) + Globals(conf, first + 1, end)
  }

  lemma FaithfulTail(conf: Conference, first: nat, end: nat, list: seq<(nat, nat)>)
    requires Faithful(conf, first, end, list) && list != [] && list[0].0 == first
    ensures Faithful(conf, first + 1, end, list[1..])
  {
    var rest := list[1..];
    assert forall i :: 1 <= i < |list| ==> list[0].0 < list[i].0 && IsEntry(conf, first, end, list[i]);
    forall l | l in conf.texts && first + 1 <= l < end ensures Lists(rest, l) {
      assert Lists(list, l);
      var i :| 0 <= i < |list| && list[i].0 == l;
      assert rest[i - 1].0 == l;
    }
  }

  lemma FaithfulSkip(conf: Conference, first: nat, end: nat, list: seq<(nat, nat)>)
    requires Faithful(conf, first, end, list) && first < end && (list == [] || list[0].0 != first)
    ensures first !in conf.texts && Faithful(conf, first + 1, end, list)
  {
    assert forall i :: 0 <= i < |list| ==> IsEntry(conf, first, end, list[i]) && (i == 0 || list[0].0 < list[i].0);
    assert !Lists(list, first);
  }

  /** An entry for the first number of the block, or none: the texts it stands for, and the rest of the list. */
  lemma FaithfulStep(conf: Conference, first: nat, end: nat, list: seq<(nat, nat)>) returns (rest: seq<(nat, nat)>)
    requires conf.Valid() && Faithful(conf, first, end, list) && first < end
    ensures Faithful(conf, first + 1, end, rest)
    ensures NonZero(list) == (if first in conf.texts then [conf.texts[first]] else []) + NonZero(rest)
  {
    if list != [] && list[0].0 == first {
      FaithfulTail(conf, first, end, list);
      assert IsEntry(conf, first, end, list[0]);
      rest := list[1..];
    } else {
      FaithfulSkip(conf, first, end, list);
      rest := list;
    }
  }

  /** Whatever it omits or lists as deleted, a faithful list yields the texts of its block. */
  lemma {:induction false} FaithfulLists(conf: Conference, first: nat, end: nat, list: seq<(nat, nat)>)
    requires conf.Valid() && Faithful(conf, first, end, list)
    ensures NonZero(list) == Globals(conf, first, end)
    decreases end - first
  {
    if first < end {
      var rest := FaithfulStep(conf, first, end, list);
      FaithfulLists(conf, first + 1, end, rest);
    } else {
      assert list == [] || IsEntry(conf, first, end, list[0]);
    }
  }

  // ---------- The query ----------

  function Least(a: nat, b: nat): nat {
    if a < b then a else b
  }

  /** One gap, in chunks of at most 255; also the last answer to whether more can be fetched. */
  function FetchGap(server: Server, first: nat, len: nat, more: bool): (r: (seq<nat>, bool))
    decreases len
  {
    if len == 0 then ([], more)
    else
      var n := Least(255, len);
      match server(first, n)
      case NoSuchLocalText => FetchGap(server, first, len - n, false)
      case Mapped(m) =>
        var (texts, more') := FetchGap(server, m.rangeEnd, len - n, m.laterTextsExist != 0);
        (NonZero(m.entries) + texts, more')
  }

  lemma FetchGapsCons(server: Server, gap: (nat, nat), gaps: seq<(nat, nat)>, more: bool)
    ensures var here := FetchGap(server, gap.0, gap.1, more);
            FetchGaps(server, [gap] + gaps, more) == Behind(here.0, FetchGaps(server, gaps, here.1))
  {
    assert ([gap] + gaps)[1..] == gaps;
  }

  /** `texts` in front of what is fetched later. */
  function Behind(texts: seq<nat>, fetched: (seq<nat>, bool)): (seq<nat>, bool) {
    (texts + fetched.0, fetched.1)
  }

  lemma BehindTwice(a: seq<nat>, b: seq<nat>, fetched: (seq<nat>, bool))
    ensures Behind(a, Behind(b, fetched)) == Behind(a + b, fetched)
    ensures Behind([], fetched) == fetched
  {
    assert a + (b + fetched.0) == a + b + fetched.0;
    assert [] + fetched.0 == fetched.0;
  }

  function FetchGaps(server: Server, gaps: seq<(nat, nat)>, more: bool): (seq<nat>, bool)
    decreases |gaps|
  {
    if gaps == [] then ([], more)
    else
      var (texts, more') := FetchGap(server, gaps[0].0, gaps[0].1, more);
      var (texts', more'') := FetchGaps(server, gaps[1..], more');
      (texts + texts', more'')
  }

  ghost function FetchTail(conf: Conference, server: Server, first: nat, more: bool): seq<nat>
    requires HonestServer(conf, server) && 1 <= first
    decreases conf.highest + 1 - first, more
  {
    if !more then []
    else
      assert HonestAt(conf, server, first, 255);
      match server(first, 255)
      case NoSuchLocalText => []
      case Mapped(m) => NonZero(m.entries) + FetchTail(conf, server, m.rangeEnd, m.laterTextsExist != 0)
  }

  lemma {:induction false} LastIsPositive(ranges: seq<ReadRange>, last: nat)
    requires 1 <= last
    ensures 1 <= LastOf(ranges, last)
    decreases |ranges|
  {
    if ranges != [] {
      LastIsPositive(ranges[1..], ranges[0].lastRead + 1);
    }
  }

  ghost function UnreadTexts(conf: Conference, server: Server, ranges: seq<ReadRange>): seq<nat>
    requires HonestServer(conf, server)
  {
    LastIsPositive(ranges, 1);
    var (texts, more) := FetchGaps(server, Gaps(ranges, 1), true);
    texts + FetchTail(conf, server, LastOf(ranges, 1), more)
  }

  lemma {:induction false} NonZeroHasNoZero(list: seq<(nat, nat)>)
    ensures 0 !in NonZero(list)
  {
    if list != [] {
      NonZeroHasNoZero(list[1..]);
    }
  }

  /** Where the next request goes on: behind the mapping, or at the same place if there was none. */
  function NextLocal(server: Server, first: nat, n: nat): nat {
    if server(first, n).Mapped? then server(first, n).mapping.rangeEnd else first
  }

  /** The requests sent for one gap: first local number and count, from 1 to 255 whatever the server answers. */
  function GapRequests(server: Server, first: nat, len: nat): (rs: seq<(nat, nat)>)
    ensures forall i :: 0 <= i < |rs| ==> 1 <= rs[i].1 <= 255
    decreases len
  {
    if len == 0 then []
    else
      var n := Least(255, len);
      [(first, n)] + GapRequests(server, NextLocal(server, first, n), len - n)
  }

  lemma RequestsStep(server: Server, requests: seq<(nat, nat)>, first: nat, len: nat)
    requires 0 < len
    ensures var n := Least(255, len);
            requests + GapRequests(server, first, len) ==
            requests + [(first, n)] + GapRequests(server, NextLocal(server, first, n), len - n)
  {
  }

  /** What one answer adds to `found`, and where paging goes on. */
  lemma GapStep(server: Server, found: seq<nat>, first: nat, len: nat, more: bool)
    requires 0 < len
    ensures var n := Least(255, len);
            Behind(found, FetchGap(server, first, len, more)) ==
            Behind(found + Texts(server(first, n)),
                   FetchGap(server, NextLocal(server, first, n), len - n, More(server(first, n))))
    ensures 0 !in found ==> 0 !in found + Texts(server(first, Least(255, len)))
  {
    var n := Least(255, len);
    var reply := server(first, n);
    if reply.Mapped? {
      NonZeroHasNoZero(reply.mapping.entries);
    } else {
      assert found + [] == found;
    }
    BehindTwice(found, Texts(reply), FetchGap(server, NextLocal(server, first, n), len - n, More(reply)));
    BehindTwice([], [], FetchGap(server, first, len - n, false));
  }

  /** The texts of an answer, and whether it promises more. */
  function Texts(reply: Reply): seq<nat> {
    if reply.Mapped? then NonZero(reply.mapping.entries) else []
  }

  predicate More(reply: Reply) {
    reply.Mapped? && reply.mapping.laterTextsExist != 0
  }

  /** The inner loop of get_unread_texts_from_membership: one gap, appended to what was found before, and the requests
      that are sent for it. */
  method PageGap(server: Server, found: seq<nat>, first: nat, len: nat, more: bool)
    returns (unread: seq<nat>, moreToFetch: bool, ghost requests: seq<(nat, nat)>)
    ensures (unread, moreToFetch) == Behind(found, FetchGap(server, first, len, more))
    ensures requests == GapRequests(server, first, len)
    ensures 0 !in found ==> 0 !in unread
  {
    unread, moreToFetch, requests := found, more, [];
    var firstLocal, gapLen := first, len;
    ghost var whole := Behind(found, FetchGap(server, first, len, more));
    ghost var sent := GapRequests(server, first, len);
    assert [] + sent == sent;
    while gapLen > 0
      invariant whole == Behind(unread, FetchGap(server, firstLocal, gapLen, moreToFetch))
      invariant sent == requests + GapRequests(server, firstLocal, gapLen)
      invariant 0 !in found ==> 0 !in unread
    {
      GapStep(server, unread, firstLocal, gapLen, moreToFetch);
      RequestsStep(server, requests, firstLocal, gapLen);
      var n := if gapLen > 255 then 255 else gapLen;
      gapLen := gapLen - n;
      requests := requests + [(firstLocal, n)];
      match server(firstLocal, n) {
        case NoSuchLocalText =>
          assert unread + [] == unread;
          moreToFetch := false;
        case Mapped(m) =>
          unread := unread + NonZero(m.entries);
          firstLocal := m.rangeEnd;
          moreToFetch := m.laterTextsExist != 0;
      }
    }
    assert unread + [] == unread && requests + [] == requests;
  }

  /** The requests for the tail: 255 numbers each, the first from `first` on, each going on where the answer before it
      ended, as long as the answers promise more. */
  ghost predicate TailRequests(server: Server, first: nat, requests: seq<(nat, nat)>) {
    && (requests != [] ==> requests[0].0 == first)
    && (forall i :: 0 <= i < |requests| ==> requests[i].1 == 255)
    && (forall i :: 0 <= i < |requests| - 1 ==> More(server(requests[i].0, 255)))
    && (forall i :: 0 <= i < |requests| - 1 ==> requests[i + 1].0 == NextLocal(server, requests[i].0, 255))
  }

  lemma OneMoreRequest(server: Server, first: nat, requests: seq<(nat, nat)>, next: nat)
    requires TailRequests(server, first, requests)
    requires if requests == [] then next == first
             else More(server(requests[|requests| - 1].0, 255)) &&
                  next == NextLocal(server, requests[|requests| - 1].0, 255)
    ensures TailRequests(server, first, requests + [(next, 255)])
  {
  }

  /** The last loop: everything behind the last read range, while there is more. */
  method PageTail(ghost conf: Conference, server: Server, found: seq<nat>, last: nat, more: bool)
    returns (unread: seq<nat>, ghost requests: seq<(nat, nat)>)
    requires HonestServer(conf, server) && 1 <= last
    ensures unread == found + FetchTail(conf, server, last, more)
    ensures 0 !in found ==> 0 !in unread
    ensures TailRequests(server, last, requests) && (requests == [] <==> !more)
    ensures requests != [] ==> !More(server(requests[|requests| - 1].0, 255))
  {
    unread, requests := found, [];
    var firstLocal, moreToFetch := last, more;
    ghost var whole := found + FetchTail(conf, server, last, more);
    while moreToFetch
      invariant 1 <= firstLocal && whole == unread + FetchTail(conf, server, firstLocal, moreToFetch)
      invariant 0 !in found ==> 0 !in unread
      invariant TailRequests(server, last, requests)
      invariant if requests == [] then firstLocal == last && moreToFetch == more
                else var before := requests[|requests| - 1].0;
                     more && moreToFetch == More(server(before, 255)) && firstLocal == NextLocal(server, before, 255)
      decreases conf.highest + 1 - firstLocal, moreToFetch
    {
      assert HonestAt(conf, server, firstLocal, 255);
      OneMoreRequest(server, last, requests, firstLocal);
      requests := requests + [(firstLocal, 255)];
      match server(firstLocal, 255) {
        case NoSuchLocalText =>
          moreToFetch := false;
        case Mapped(m) =>
          NonZeroHasNoZero(m.entries);
          ghost var tail := FetchTail(conf, server, m.rangeEnd, m.laterTextsExist != 0);
          assert unread + (NonZero(m.entries) + tail) == unread + NonZero(m.entries) + tail;
          unread := unread + NonZero(m.entries);
          firstLocal := m.rangeEnd;
          moreToFetch := m.laterTextsExist != 0;
      }
    }
    assert unread + [] == unread;
  }

  /** get_unread_texts_from_membership.  The conference is not known to it: only the proof that paging ends uses it. */
  method GetUnreadTexts(ghost conf: Conference, server: Server, ranges: seq<ReadRange>) returns (unread: seq<nat>)
    requires HonestServer(conf, server)
    ensures unread == UnreadTexts(conf, server, ranges)
  {
    unread := [];
    var more := true;
    var gaps, last := ReadRangesToGapsAndLast(ranges);
    ghost var fetched := FetchGaps(server, gaps, true);
    BehindTwice([], [], fetched);
    assert gaps[0..] == gaps;
    for i := 0 to |gaps|
      invariant fetched == Behind(unread, FetchGaps(server, gaps[i..], more))
      invariant 0 !in unread
    {
      ghost var others := gaps[i + 1..];
      assert gaps[i..] == [gaps[i]] + others;
      FetchGapsCons(server, gaps[i], others, more);
      ghost var here := FetchGap(server, gaps[i].0, gaps[i].1, more);
      BehindTwice(unread, here.0, FetchGaps(server, others, here.1));
      ghost var requests;
      unread, more, requests := PageGap(server, unread, gaps[i].0, gaps[i].1, more);
    }
    assert unread + [] == unread;
    LastIsPositive(ranges, 1);
    ghost var asked;
    unread, asked := PageTail(conf, server, unread, last, more);
    unread := WithoutZeros(unread);
  }

  function Kept(texts: seq<nat>): (r: seq<nat>)
    ensures 0 !in texts ==> r == texts
    ensures forall t :: t in r <==> t in texts && t != 0
  {
    if texts == [] then []
    else
      var n := |texts| - 1;
      assert texts == texts[..n] + [texts[n]];
      Kept(texts[..n]) + if texts[n] != 0 then [texts[n]] else []
  }

  /** What is kept of the first numbers comes first. */
  lemma {:induction false} KeptInOrder(texts: seq<nat>, i: nat)
    requires i <= |texts|
    ensures Kept(texts[..i]) <= Kept(texts)
    decreases |texts|
  {
    if i < |texts| {
      var n := |texts| - 1;
      KeptInOrder(texts[..n], i);
      assert texts[..n][..i] == texts[..i];
    } else {
      assert texts[..i] == texts;
    }
  }

  /** Every number other than 0 is kept as often as it was there, and no 0. */
  lemma {:induction false} KeptCounts(texts: seq<nat>)
    ensures multiset(Kept(texts)) == multiset(texts)[0 := 0]
  {
    if texts != [] {
      var n := |texts| - 1;
      KeptCounts(texts[..n]);
      assert texts == texts[..n] + [texts[n]];
    }
  }

  /** The last line of the query; there are no zeros left. */
  method WithoutZeros(texts: seq<nat>) returns (r: seq<nat>)
    ensures r == Kept(texts)
  {
    r := [];
    for i := 0 to |texts|
      invariant r == Kept(texts[..i])
    {
      assert texts[..i + 1][..i] == texts[..i];
      if texts[i] != 0 {
        r := r + [texts[i]];
      }
    }
    assert texts[..|texts|] == texts;
  }

  // ---------- Exactness ----------

  lemma {:induction false} GlobalsSplit(conf: Conference, a: nat, b: nat, c: nat)
    requires a <= b <= c
    ensures Globals(conf, a, c) == Globals(conf, a, b) + Globals(conf, b, c)
    decreases b - a
  {
    if a < b {
      GlobalsSplit(conf, a + 1, b, c);
    }
  }

  lemma {:induction false} GlobalsEmpty(conf: Conference, a: nat, b: nat)
    requires NoTextsFrom(conf, a)
    ensures Globals(conf, a, b) == []
    decreases b - a
  {
    if a < b {
      GlobalsEmpty(conf, a + 1, b);
    }
  }

  /** Against an exact server a gap yields the texts of the gap; when no more can be fetched, none lie behind it. */
  lemma {:induction false} GapIsExact(conf: Conference, server: Server, first: nat, len: nat, more: bool)
    requires ExactServer(conf, server) && 1 <= first
    ensures var (texts, more') := FetchGap(server, first, len, more);
            && texts == Globals(conf, first, first + len)
            && (!more' && (len > 0 || NoTextsFrom(conf, first)) ==> NoTextsFrom(conf, first + len))
    decreases len
  {
    if len > 0 {
      var n := Least(255, len);
      var reply := server(first, n);
      assert HonestAt(conf, server, first, n) && ExactAt(server, first, n);
      match reply
      case NoSuchLocalText =>
        GapIsExact(conf, server, first, len - n, false);
        GlobalsEmpty(conf, first, first + len);
        GlobalsEmpty(conf, first, first + (len - n));
      case Mapped(m) =>
        FaithfulLists(conf, first, m.rangeEnd, m.entries);
        GapIsExact(conf, server, m.rangeEnd, len - n, m.laterTextsExist != 0);
        GlobalsSplit(conf, first, m.rangeEnd, first + len);
        if m.rangeEnd < first + n {
          assert NoTextsFrom(conf, m.rangeEnd);
          GlobalsEmpty(conf, m.rangeEnd, m.rangeEnd + (len - n));
          GlobalsEmpty(conf, m.rangeEnd, first + len);
        }
    }
  }

  /** The existing texts in [first, end) that no range has read, ascending. */
  ghost function Missed(conf: Conference, ranges: seq<ReadRange>, first: nat, end: nat): seq<nat>
    decreases end - first
  {
    if end <= first then []
    else (if first in conf.texts && !IsRead(ranges, first) then [conf.texts[first]] else [])
         + Missed(conf, ranges, first + 1, end)
  }

  lemma {:induction false} MissedSplit(conf: Conference, ranges: seq<ReadRange>, a: nat, b: nat, c: nat)
    requires a <= b <= c
    ensures Missed(conf, ranges, a, c) == Missed(conf, ranges, a, b) + Missed(conf, ranges, b, c)
    decreases b - a
  {
    if a < b {
      MissedSplit(conf, ranges, a + 1, b, c);
    }
  }

  /** A number is missed exactly if it is the global number of a text that no range has read. */
  lemma {:induction false} MissedHold(conf: Conference, ranges: seq<ReadRange>, first: nat, end: nat, g: nat)
    ensures g in Missed(conf, ranges, first, end) <==>
            exists l :: l in conf.texts && first <= l < end && conf.texts[l] == g && !IsRead(ranges, l)
    decreases end - first
  {
    if first < end {
      MissedHold(conf, ranges, first + 1, end, g);
      if first in conf.texts && conf.texts[first] == g && !IsRead(ranges, first) {
        assert g in Missed(conf, ranges, first, end);
      }
      if g in Missed(conf, ranges, first + 1, end) {
        var l :| l in conf.texts && first + 1 <= l < end && conf.texts[l] == g && !IsRead(ranges, l);
        assert first <= l;
      }
    }
  }

  lemma {:induction false} MissedOfUnread(conf: Conference, ranges: seq<ReadRange>, a: nat, b: nat)
    requires forall x :: a <= x < b ==> !IsRead(ranges, x)
    ensures Missed(conf, ranges, a, b) == Globals(conf, a, b)
    decreases b - a
  {
    if a < b {
      MissedOfUnread(conf, ranges, a + 1, b);
    }
  }

  lemma {:induction false} MissedOfNone(conf: Conference, ranges: seq<ReadRange>, a: nat, b: nat)
    requires forall l :: a <= l < b ==> l !in conf.texts || IsRead(ranges, l)
    ensures Missed(conf, ranges, a, b) == []
    decreases b - a
  {
    if a < b {
      MissedOfNone(conf, ranges, a + 1, b);
    }
  }

  lemma {:induction false} MissedAgrees(conf: Conference, ranges: seq<ReadRange>, others: seq<ReadRange>, a: nat,
                                        b: nat)
    requires forall x :: a <= x < b ==> (IsRead(ranges, x) <==> IsRead(others, x))
    ensures Missed(conf, ranges, a, b) == Missed(conf, others, a, b)
    decreases b - a
  {
    if a < b {
      MissedAgrees(conf, ranges, others, a + 1, b);
    }
  }

  lemma BeforeFirst(conf: Conference, ranges: seq<ReadRange>, last: nat, here: nat)
    requires Sorted(ranges) && ranges != [] && (last < here ==> here <= ranges[0].firstRead)
    ensures Missed(conf, ranges, last, here) == Globals(conf, last, here)
  {
    forall x | last <= x < here ensures !IsRead(ranges, x) {
      if IsRead(ranges, x) {
        ReadFromFirst(ranges, x);
      }
    }
    MissedOfUnread(conf, ranges, last, here);
  }

  lemma InFirst(conf: Conference, ranges: seq<ReadRange>, here: nat)
    requires ranges != [] && ranges[0].firstRead <= here
    ensures Missed(conf, ranges, here, ranges[0].lastRead + 1) == []
  {
    forall x | here <= x < ranges[0].lastRead + 1 ensures IsRead(ranges, x) {
      assert Reads(ranges[0], x);
    }
    MissedOfNone(conf, ranges, here, ranges[0].lastRead + 1);
  }

  lemma BehindFirst(conf: Conference, ranges: seq<ReadRange>, end: nat)
    requires ranges != []
    ensures var from := ranges[0].lastRead + 1; Missed(conf, ranges, from, end) == Missed(conf, ranges[1..], from, end)
  {
    var from := ranges[0].lastRead + 1;
    forall x: nat | from <= x < end ensures IsRead(ranges, x) <==> IsRead(ranges[1..], x) {
      IsReadSplit(ranges, x);
    }
    MissedAgrees(conf, ranges, ranges[1..], from, end);
  }

  /** What the first range contributes: the gap in front of it, and nothing it covers. */
  lemma FirstRange(conf: Conference, ranges: seq<ReadRange>, last: nat, end: nat)
    requires Sorted(ranges) && ranges != [] && last <= ranges[0].lastRead + 1 <= end
    ensures var r := ranges[0];
            Missed(conf, ranges, last, end) ==
            Globals(conf, last, r.firstRead) + Missed(conf, ranges[1..], r.lastRead + 1, end)
  {
    var r := ranges[0];
    var here := if last < r.firstRead then r.firstRead else last;
    var behind := Missed(conf, ranges[1..], r.lastRead + 1, end);
    assert Missed(conf, ranges, here, end) == behind by {
      MissedSplit(conf, ranges, here, r.lastRead + 1, end);
      InFirst(conf, ranges, here);
      BehindFirst(conf, ranges, end);
      assert [] + behind == behind;
    }
    MissedSplit(conf, ranges, last, here, end);
    BeforeFirst(conf, ranges, last, here);
    assert Globals(conf, last, here) == Globals(conf, last, r.firstRead);
  }

  /** One range: its gap is exact, and if more' is false nothing lies behind the range either. */
  lemma RangeIsExact(conf: Conference, server: Server, r: ReadRange, last: nat, more: bool)
    requires ExactServer(conf, server) && 1 <= last <= r.lastRead + 1 && r.firstRead <= r.lastRead
    requires !more ==> NoTextsFrom(conf, last)
    ensures var gaps := GapBefore(last, r);
            var (texts, more') := FetchGaps(server, gaps, more);
            texts == Globals(conf, last, r.firstRead) && (!more' ==> NoTextsFrom(conf, r.lastRead + 1))
  {
    if last < r.firstRead {
      var gap := (last, r.firstRead - last);
      GapIsExact(conf, server, last, gap.1, more);
      FetchGapsCons(server, gap, [], more);
      assert [gap] + [] == GapBefore(last, r);
      var texts := FetchGap(server, last, gap.1, more).0;
      assert texts + [] == texts;
    }
  }

  lemma {:induction false} FetchGapsConcat(server: Server, a: seq<(nat, nat)>, b: seq<(nat, nat)>, more: bool)
    ensures var here := FetchGaps(server, a, more);
            FetchGaps(server, a + b, more) == Behind(here.0, FetchGaps(server, b, here.1))
    decreases |a|
  {
    if a == [] {
      assert a + b == b;
      BehindTwice([], [], FetchGaps(server, b, more));
    } else {
      var first := FetchGap(server, a[0].0, a[0].1, more);
      assert a + b == [a[0]] + (a[1..] + b) && a == [a[0]] + a[1..];
      FetchGapsCons(server, a[0], a[1..] + b, more);
      FetchGapsCons(server, a[0], a[1..], more);
      FetchGapsConcat(server, a[1..], b, first.1);
      var rest := FetchGaps(server, a[1..], first.1);
      BehindTwice(first.0, rest.0, FetchGaps(server, b, rest.1));
    }
  }

  lemma {:induction false} GapsAreExact(conf: Conference, server: Server, ranges: seq<ReadRange>, last: nat, more: bool)
    requires ExactServer(conf, server) && Sorted(ranges) && 1 <= last
    requires ranges == [] || last <= ranges[0].lastRead + 1
    requires !more ==> NoTextsFrom(conf, last)
    ensures var (texts, more') := FetchGaps(server, Gaps(ranges, last), more);
            && texts == Missed(conf, ranges, last, LastOf(ranges, last))
            && (!more' ==> NoTextsFrom(conf, LastOf(ranges, last)))
    decreases |ranges|
  {
    if ranges != [] {
      var r, rest := ranges[0], ranges[1..];
      var gap := GapBefore(last, r);
      LastGrows(rest, r.lastRead + 1);
      FirstRange(conf, ranges, last, LastOf(ranges, last));
      var (texts, more') := FetchGaps(server, gap, more);
      RangeIsExact(conf, server, r, last, more);
      FetchGapsConcat(server, gap, Gaps(rest, r.lastRead + 1), more);
      GapsAreExact(conf, server, rest, r.lastRead + 1, more');
      assert FetchGaps(server, Gaps(ranges, last), more) ==
             Behind(texts, FetchGaps(server, Gaps(rest, r.lastRead + 1), more'));
    }
  }

  /** The tail is exact against every honest server. */
  lemma {:induction false} TailIsExact(conf: Conference, server: Server, first: nat, more: bool)
    requires HonestServer(conf, server) && 1 <= first
    requires !more ==> NoTextsFrom(conf, first)
    ensures FetchTail(conf, server, first, more) == Globals(conf, first, conf.highest + 1)
    decreases conf.highest + 1 - first, more
  {
    if !more {
      GlobalsEmpty(conf, first, conf.highest + 1);
    } else {
      var reply := server(first, 255);
      assert HonestAt(conf, server, first, 255);
      match reply
      case NoSuchLocalText => GlobalsEmpty(conf, first, conf.highest + 1);
      case Mapped(m) =>
        FaithfulLists(conf, first, m.rangeEnd, m.entries);
        TailIsExact(conf, server, m.rangeEnd, m.laterTextsExist != 0);
        GlobalsSplit(conf, first, m.rangeEnd, conf.highest + 1);
    }
  }

  /** When the gaps yielded what is missed in front of `last`, the tail yields the rest. */
  lemma TailCompletes(conf: Conference, server: Server, ranges: seq<ReadRange>, more: bool)
    requires HonestServer(conf, server) && Sorted(ranges)
    requires !more ==> NoTextsFrom(conf, LastOf(ranges, 1))
    ensures var last := LastOf(ranges, 1);
            && 1 <= last
            && Missed(conf, ranges, 1, last) + FetchTail(conf, server, last, more) ==
               Missed(conf, ranges, 1, conf.highest + 1)
  {
    var last := LastOf(ranges, 1);
    LastIsPositive(ranges, 1);
    TailIsExact(conf, server, last, more);
    forall x: nat | last <= x ensures !IsRead(ranges, x) {
      GapsPartition(ranges, 1, x);
    }
    var end := if last <= conf.highest + 1 then conf.highest + 1 else last;
    MissedSplit(conf, ranges, 1, last, end);
    MissedOfUnread(conf, ranges, last, end);
    MissedSplit(conf, ranges, 1, conf.highest + 1, end);
    MissedBeyond(conf, ranges, conf.highest + 1, end);
  }

  /** Against an exact server the query returns the global numbers of all existing texts in no read range, in
      ascending local order, each once. */
  lemma UnreadTextsExact(conf: Conference, server: Server, ranges: seq<ReadRange>)
    requires ExactServer(conf, server) && Sorted(ranges)
    ensures UnreadTexts(conf, server, ranges) == Missed(conf, ranges, 1, conf.highest + 1)
  {
    GapsAreExact(conf, server, ranges, 1, true);
    TailCompletes(conf, server, ranges, FetchGaps(server, Gaps(ranges, 1), true).1);
  }

  lemma {:induction false} MissedBeyond(conf: Conference, ranges: seq<ReadRange>, a: nat, b: nat)
    requires conf.Valid() && conf.highest < a
    ensures Missed(conf, ranges, a, b) == []
    decreases b - a
  {
    if a < b {
      MissedBeyond(conf, ranges, a + 1, b);
    }
  }

  /** Every local number up to `highest` exists, and is also the global number. */
  function Identity(highest: nat): (texts: map<nat, nat>)
    ensures forall l :: l in texts <==> 1 <= l <= highest
    ensures forall l :: l in texts ==> texts[l] == l
  {
    if highest == 0 then map[] else Identity(highest - 1)[highest := highest]
  }

  function IdentityList(first: nat, count: nat): (list: seq<(nat, nat)>)
    ensures |list| == count && forall i :: 0 <= i < count ==> list[i] == (first + i, first + i)
  {
    seq(count, i requires 0 <= i < count => (first + i, first + i))
  }

  /** What the server of the repository's own tests answers. */
  function TestReply(highest: nat, first: nat, n: nat): Reply {
    if first > highest then NoSuchLocalText
    else
      var end := Least(first + n, highest + 1);
      Mapped(Mapping(first, end, if end > highest then 0 else 1, IdentityList(first, end - first), map[]))
  }

  lemma TestReplyIsHonest(highest: nat, first: nat, n: nat)
    requires 1 <= first && 1 <= n
    ensures Honest(Conference(Identity(highest), highest), first, n, TestReply(highest, first, n))
  {
    var conf, reply := Conference(Identity(highest), highest), TestReply(highest, first, n);
    if reply.Mapped? {
      var list, end := reply.mapping.entries, reply.mapping.rangeEnd;
      forall l | l in conf.texts && first <= l < end ensures Lists(list, l) {
        assert list[l - first].0 == l;
      }
    }
  }

  /** The server of the tests is an exact one, so the query is exact against it. */
  lemma {:induction false} TestServerIsExact(highest: nat, server: Server)
    requires forall first: nat, n: nat :: server(first, n) == TestReply(highest, first, n)
    ensures ExactServer(Conference(Identity(highest), highest), server)
  {
    forall first: nat, n: nat
      ensures HonestAt(Conference(Identity(highest), highest), server, first, n) && ExactAt(server, first, n)
    {
      if 1 <= first && 1 <= n {
        TestReplyIsHonest(highest, first, n);
      }
    }
  }

  // ---------- Completeness ----------

  lemma {:induction false} GlobalsHold(conf: Conference, first: nat, end: nat, g: nat)
    ensures g in Globals(conf, first, end) <==> exists l :: l in conf.texts && first <= l < end && conf.texts[l] == g
    decreases end - first
  {
    if first < end {
      GlobalsHold(conf, first + 1, end, g);
      if first in conf.texts && conf.texts[first] == g {
        assert g in Globals(conf, first, end);
      }
      if g in Globals(conf, first + 1, end) {
        var l :| l in conf.texts && first + 1 <= l < end && conf.texts[l] == g;
        assert l in conf.texts && first <= l < end && conf.texts[l] == g;
      }
    }
  }

  /** A gap's texts are in the answer, whatever the server maps beyond them; and when no more can be fetched, so is
      every text behind the gap. */
  lemma {:induction false} GapIsComplete(conf: Conference, server: Server, first: nat, len: nat, more: bool, l: nat)
    requires HonestServer(conf, server) && 1 <= first && l in conf.texts && first <= l
    ensures var (texts, more') := FetchGap(server, first, len, more);
            l < first + len || (len > 0 && !more') ==> conf.texts[l] in texts
    decreases len
  {
    if len > 0 {
      var n := Least(255, len);
      var reply := server(first, n);
      assert HonestAt(conf, server, first, n);
      match reply
      case NoSuchLocalText =>
      case Mapped(m) =>
        FaithfulLists(conf, first, m.rangeEnd, m.entries);
        if l < m.rangeEnd {
          GlobalsHold(conf, first, m.rangeEnd, conf.texts[l]);
        } else {
          GapIsComplete(conf, server, m.rangeEnd, len - n, m.laterTextsExist != 0, l);
        }
    }
  }

  /** What GapsAreComplete says about one text and one list of gaps. */
  predicate FoundOrBehind(g: nat, l: nat, gaps: seq<(nat, nat)>, last: nat, fetched: (seq<nat>, bool), more: bool) {
    g in fetched.0 || (last <= l && (fetched.1 || (!more && gaps == [])))
  }

  /** One gap and what follows it, without looking at the server. */
  lemma FoundInFirstGap(server: Server, ranges: seq<ReadRange>, last: nat, more: bool, g: nat, l: nat)
    requires ranges != [] && last < ranges[0].firstRead
    requires var here := FetchGap(server, last, ranges[0].firstRead - last, more);
             var later := Gaps(ranges[1..], ranges[0].lastRead + 1);
             g in here.0 ||
             (here.1 && FoundOrBehind(g, l, later, LastOf(ranges, last), FetchGaps(server, later, here.1), here.1))
    ensures var gaps := Gaps(ranges, last);
            FoundOrBehind(g, l, gaps, LastOf(ranges, last), FetchGaps(server, gaps, more), more)
  {
    FetchGapsCons(server, (last, ranges[0].firstRead - last), Gaps(ranges[1..], ranges[0].lastRead + 1), more);
  }

  /** The first gap holds the text, or the text lies behind it and more can be fetched. */
  lemma InFirstGapOrBehind(conf: Conference, server: Server, first: nat, end: nat, more: bool, l: nat)
    requires HonestServer(conf, server) && 1 <= first < end && l in conf.texts && first <= l
    ensures var here := FetchGap(server, first, end - first, more); conf.texts[l] in here.0 || (here.1 && end <= l)
  {
    GapIsComplete(conf, server, first, end - first, more, l);
  }

  lemma UnreadBehindFirst(ranges: seq<ReadRange>, l: nat)
    requires ranges != [] && !IsRead(ranges, l) && ranges[0].firstRead <= l
    ensures ranges[0].lastRead + 1 <= l && !IsRead(ranges[1..], l)
  {
    IsReadSplit(ranges, l);
  }

  /** A range without a gap in front of it changes nothing. */
  lemma NoGapBefore(ranges: seq<ReadRange>, last: nat)
    requires ranges != [] && ranges[0].firstRead <= last
    ensures Gaps(ranges, last) == Gaps(ranges[1..], ranges[0].lastRead + 1)
    ensures LastOf(ranges, last) == LastOf(ranges[1..], ranges[0].lastRead + 1)
  {
  }

  /** Every unread text from `last` on is found in the gaps, or lies behind them while more can be fetched. */
  lemma {:induction false} GapsAreComplete(conf: Conference, server: Server, ranges: seq<ReadRange>, last: nat,
                                           more: bool, l: nat)
    requires HonestServer(conf, server) && 1 <= last && l in conf.texts && last <= l && !IsRead(ranges, l)
    ensures var gaps := Gaps(ranges, last);
            FoundOrBehind(conf.texts[l], l, gaps, LastOf(ranges, last), FetchGaps(server, gaps, more), more)
    decreases |ranges|
  {
    if ranges != [] {
      var r, rest := ranges[0], ranges[1..];
      if last < r.firstRead {
        var here := FetchGap(server, last, r.firstRead - last, more);
        InFirstGapOrBehind(conf, server, last, r.firstRead, more, l);
        if conf.texts[l] !in here.0 {
          UnreadBehindFirst(ranges, l);
          GapsAreComplete(conf, server, rest, r.lastRead + 1, here.1, l);
        }
        FoundInFirstGap(server, ranges, last, more, conf.texts[l], l);
      } else {
        UnreadBehindFirst(ranges, l);
        NoGapBefore(ranges, last);
        GapsAreComplete(conf, server, rest, r.lastRead + 1, more, l);
      }
    }
  }

  lemma TailIsComplete(conf: Conference, server: Server, last: nat, l: nat)
    requires HonestServer(conf, server) && 1 <= last <= l && l in conf.texts
    ensures conf.texts[l] in FetchTail(conf, server, last, true)
  {
    TailIsExact(conf, server, last, true);
    GlobalsHold(conf, last, conf.highest + 1, conf.texts[l]);
  }

  /** Against every honest server, even one that maps beyond a gap, and for every list of ranges, sorted or not, no
      unread text is missing. */
  lemma UnreadTextsComplete(conf: Conference, server: Server, ranges: seq<ReadRange>, l: nat)
    requires HonestServer(conf, server) && l in conf.texts && !IsRead(ranges, l)
    ensures conf.texts[l] in UnreadTexts(conf, server, ranges)
  {
    LastIsPositive(ranges, 1);
    GapsAreComplete(conf, server, ranges, 1, true, l);
    if conf.texts[l] !in FetchGaps(server, Gaps(ranges, 1), true).0 {
      TailIsComplete(conf, server, LastOf(ranges, 1), l);
    }
  }

  lemma {:induction false} GapIsSound(conf: Conference, server: Server, first: nat, len: nat, more: bool, g: nat)
    requires HonestServer(conf, server) && 1 <= first && g in FetchGap(server, first, len, more).0
    ensures exists l :: l in conf.texts && conf.texts[l] == g
    decreases len
  {
    if len > 0 {
      var n := Least(255, len);
      var reply := server(first, n);
      assert HonestAt(conf, server, first, n);
      match reply
      case NoSuchLocalText => GapIsSound(conf, server, first, len - n, false, g);
      case Mapped(m) =>
        FaithfulLists(conf, first, m.rangeEnd, m.entries);
        GlobalsHold(conf, first, m.rangeEnd, g);
        if g !in NonZero(m.entries) {
          GapIsSound(conf, server, m.rangeEnd, len - n, m.laterTextsExist != 0, g);
        }
    }
  }

  lemma {:induction false} GapsAreSound(conf: Conference, server: Server, gaps: seq<(nat, nat)>, more: bool, g: nat)
    requires HonestServer(conf, server) && g in FetchGaps(server, gaps, more).0
    requires forall i :: 0 <= i < |gaps| ==> 1 <= gaps[i].0
    ensures exists l :: l in conf.texts && conf.texts[l] == g
    decreases |gaps|
  {
    if gaps != [] {
      var here := FetchGap(server, gaps[0].0, gaps[0].1, more);
      if g in here.0 {
        GapIsSound(conf, server, gaps[0].0, gaps[0].1, more, g);
      } else {
        GapsAreSound(conf, server, gaps[1..], here.1, g);
      }
    }
  }

  lemma {:induction false} GapsStartPositive(ranges: seq<ReadRange>, last: nat)
    requires 1 <= last
    ensures forall i :: 0 <= i < |Gaps(ranges, last)| ==> 1 <= Gaps(ranges, last)[i].0
    decreases |ranges|
  {
    if ranges != [] {
      GapsStartPositive(ranges[1..], ranges[0].lastRead + 1);
    }
  }

  /** Whatever an honest server maps, only texts that exist are returned. */
  lemma UnreadTextsSound(conf: Conference, server: Server, ranges: seq<ReadRange>, g: nat)
    requires HonestServer(conf, server) && g in UnreadTexts(conf, server, ranges)
    ensures exists l :: l in conf.texts && conf.texts[l] == g
  {
    LastIsPositive(ranges, 1);
    GapsStartPositive(ranges, 1);
    var last := LastOf(ranges, 1);
    var (texts, more) := FetchGaps(server, Gaps(ranges, 1), true);
    if g in texts {
      GapsAreSound(conf, server, Gaps(ranges, 1), true, g);
    } else if more {
      TailIsExact(conf, server, last, true);
      GlobalsHold(conf, last, conf.highest + 1, g);
    }
  }

  // ---------- What is lost against a server that counts existing texts ----------

  /** Texts 1 and 3 exist, 3 is read; 2 was deleted. */
  const SPARSE := Conference(map[1 := 11, 3 := 33], 3)

  /** Maps n existing texts, so the mapping for the gap [1, 3) reaches over the range [3, 3]. */
  function CountsExisting(first: nat, n: nat): Reply {
    if first > 3 then NoSuchLocalText
    else if first > 1 then Mapped(Mapping(first, 4, 0, [(3, 33)], map[3 := 33]))
    else if n == 1 then Mapped(Mapping(first, 2, 1, [(1, 11)], map[1 := 11]))
    else Mapped(Mapping(first, 4, 0, [(1, 11), (3, 33)], map[1 := 11, 3 := 33]))
  }

  lemma CountsExistingIsHonest()
    ensures HonestServer(SPARSE, CountsExisting)
  {
    forall first: nat, n: nat ensures HonestAt(SPARSE, CountsExisting, first, n) {
      var reply := CountsExisting(first, n);
      if reply.Mapped? {
        var list := reply.mapping.entries;
        forall l | l in SPARSE.texts && first <= l < reply.mapping.rangeEnd ensures Lists(list, l) {
          assert list[0].0 == l || list[1].0 == l;
        }
      }
    }
  }

  lemma OvershootingFetch(server: Server)
    requires server(1, 2) == CountsExisting(1, 2)
    ensures FetchGaps(server, [(1, 2)], true) == ([11, 33], false)
  {
    assert [(1, 11), (3, 33)][1..] == [(3, 33)] && [(3, 33)][1..] == [];
    assert NonZero([(3, 33)]) == [33];
    assert NonZero([(1, 11), (3, 33)]) == [11] + NonZero([(3, 33)]);
    var m := server(1, 2).mapping;
    assert m.rangeEnd == 4 && m.laterTextsExist == 0 && NonZero(m.entries) == [11, 33];
    assert FetchGap(server, m.rangeEnd, 0, false) == ([], false);
    assert [11, 33] + [] == [11, 33];
    assert Least(255, 2) == 2;
    assert FetchGap(server, 1, 2, true) == ([11, 33], false);
    FetchGapsCons(server, (1, 2), [], true);
    assert [(1, 2)] + [] == [(1, 2)];
  }

  /** Exactness needs the exact server: an honest one can make the query return a text that is read. */
  lemma HonestIsNotEnough()
    ensures HonestServer(SPARSE, CountsExisting)
    ensures UnreadTexts(SPARSE, CountsExisting, [ReadRange(3, 3)]) == [11, 33]
    ensures Missed(SPARSE, [ReadRange(3, 3)], 1, 4) == [11]
  {
    var ranges := [ReadRange(3, 3)];
    CountsExistingIsHonest();
    OvershootingFetch(CountsExisting);
    assert Gaps(ranges, 1) == [(1, 2)];
    assert Reads(ranges[0], 3) && IsRead(ranges, 3) && !IsRead(ranges, 1);
    assert Missed(SPARSE, ranges, 2, 4) == Missed(SPARSE, ranges, 3, 4) == Missed(SPARSE, ranges, 4, 4) == [];
  }

  // ---------- When every honest server will do ----------

  ghost predicate Exact(conf: Conference, server: Server, ranges: seq<ReadRange>)
    requires HonestServer(conf, server)
  {
    UnreadTexts(conf, server, ranges) == Missed(conf, ranges, 1, conf.highest + 1)
  }

  lemma NoGapsAreExact(conf: Conference, server: Server, ranges: seq<ReadRange>)
    requires HonestServer(conf, server) && Sorted(ranges) && Gaps(ranges, 1) == []
    ensures Exact(conf, server, ranges)
  {
    var last := LastOf(ranges, 1);
    forall x: nat | 1 <= x < last ensures IsRead(ranges, x) {
      GapsPartition(ranges, 1, x);
    }
    MissedOfNone(conf, ranges, 1, last);
    TailCompletes(conf, server, ranges, true);
  }

  /** Behind the first gap a range begins. */
  lemma {:induction false} FirstGapMeetsRange(ranges: seq<ReadRange>, last: nat)
    requires Sorted(ranges) && Gaps(ranges, last) != []
    ensures var g := Gaps(ranges, last)[0]; 0 < g.1 && IsRead(ranges, g.0 + g.1)
    decreases |ranges|
  {
    var r := ranges[0];
    if last < r.firstRead {
      assert Gaps(ranges, last)[0] == (last, r.firstRead - last);
      assert Reads(ranges[0], r.firstRead);
    } else {
      assert Gaps(ranges, last) == Gaps(ranges[1..], r.lastRead + 1);
      FirstGapMeetsRange(ranges[1..], r.lastRead + 1);
      var g := Gaps(ranges, last)[0];
      IsReadSplit(ranges, g.0 + g.1);
    }
  }

  /** The texts of [first, end), as a server lists them. */
  function Entries(conf: Conference, first: nat, end: nat): (list: seq<(nat, nat)>)
    ensures forall i :: 0 <= i < |list| ==> first <= list[i].0 && IsEntry(conf, first, end, list[i])
    decreases end - first
  {
    if end <= first then []
    else (if first in conf.texts then [(first, conf.texts[first])] else []) + Entries(conf, first + 1, end)
  }

  lemma {:induction false} EntriesAreFaithful(conf: Conference, first: nat, end: nat)
    ensures Faithful(conf, first, end, Entries(conf, first, end))
    decreases end - first
  {
    if first < end {
      EntriesAreFaithful(conf, first + 1, end);
      var here := if first in conf.texts then [(first, conf.texts[first])] else [];
      var rest, list := Entries(conf, first + 1, end), Entries(conf, first, end);
      assert list == here + rest;
      forall l | l in conf.texts && first <= l < end ensures Lists(list, l) {
        if l == first {
          assert list[0].0 == l;
        } else {
          assert Lists(rest, l);
          var i :| 0 <= i < |rest| && rest[i].0 == l;
          assert list[|here| + i].0 == l;
        }
      }
    }
  }

  /** A mapping of [first, end) that tells the truth about what follows. */
  function MapTo(conf: Conference, first: nat, end: nat): Reply {
    Mapped(Mapping(first, end, if end <= conf.highest then 1 else 0, Entries(conf, first, end), map[]))
  }

  lemma MapToIsHonest(conf: Conference, first: nat, n: nat, end: nat)
    requires conf.Valid() && first < end <= conf.highest + 1
    requires first + n <= end || end == conf.highest + 1
    ensures Honest(conf, first, n, MapTo(conf, first, end))
    ensures NonZero(Entries(conf, first, end)) == Globals(conf, first, end)
  {
    EntriesAreFaithful(conf, first, end);
    FaithfulLists(conf, first, end, Entries(conf, first, end));
  }

  /** An honest server that always maps to the end of the conference. */
  function MapsToTheEnd(conf: Conference, first: nat): Reply {
    if conf.highest < first then NoSuchLocalText else MapTo(conf, first, conf.highest + 1)
  }

  /** An honest server that maps no further than it was asked to, except up to text `l` where that would be `end`. */
  function MapsBeyond(conf: Conference, end: nat, l: nat, first: nat, n: nat): Reply {
    if conf.highest < first then NoSuchLocalText
    else MapTo(conf, first, if first + n == end then l + 1 else Least(first + n, conf.highest + 1))
  }

  ghost predicate ToTheEnd(conf: Conference, server: Server) {
    forall first: nat, n: nat :: server(first, n) == MapsToTheEnd(conf, first)
  }

  ghost predicate Beyond(conf: Conference, end: nat, l: nat, server: Server) {
    forall first: nat, n: nat :: server(first, n) == MapsBeyond(conf, end, l, first, n)
  }

  lemma ToTheEndIsHonest(conf: Conference, server: Server)
    requires conf.Valid() && ToTheEnd(conf, server)
    ensures HonestServer(conf, server)
  {
    forall first: nat, n: nat ensures HonestAt(conf, server, first, n) {
      if first <= conf.highest {
        MapToIsHonest(conf, first, n, conf.highest + 1);
      }
    }
  }

  lemma BeyondIsHonest(conf: Conference, end: nat, l: nat, server: Server)
    requires conf.Valid() && Beyond(conf, end, l, server) && end <= l <= conf.highest
    ensures HonestServer(conf, server)
  {
    forall first: nat, n: nat ensures HonestAt(conf, server, first, n) {
      if 1 <= n && first <= conf.highest {
        MapToIsHonest(conf, first, n, if first + n == end then l + 1 else Least(first + n, conf.highest + 1));
      }
    }
  }

  /** Behind the highest number an honest server maps nothing. */
  lemma {:induction false} NothingBehindHighest(conf: Conference, server: Server, first: nat, len: nat, more: bool)
    requires HonestServer(conf, server) && conf.highest < first
    ensures FetchGap(server, first, len, more) == ([], more && len == 0)
    decreases len
  {
    if len > 0 {
      assert HonestAt(conf, server, first, Least(255, len));
      NothingBehindHighest(conf, server, first, len - Least(255, len), false);
    }
  }

  /** Such a server answers a gap with everything from its start on. */
  lemma GapToTheEnd(conf: Conference, server: Server, first: nat, len: nat, more: bool)
    requires conf.Valid() && ToTheEnd(conf, server) && 1 <= first && 0 < len
    ensures FetchGap(server, first, len, more) == (Globals(conf, first, conf.highest + 1), false)
  {
    ToTheEndIsHonest(conf, server);
    if conf.highest < first {
      NothingBehindHighest(conf, server, first, len, more);
    } else {
      var n := Least(255, len);
      MapToIsHonest(conf, first, n, conf.highest + 1);
      NothingBehindHighest(conf, server, conf.highest + 1, len - n, false);
      assert server(first, n) == MapTo(conf, first, conf.highest + 1);
      var texts := Globals(conf, first, conf.highest + 1);
      assert texts + [] == texts;
    }
  }

  /** The other server maps a gap that ends at `end` up to text `l`. */
  lemma {:induction false} GapBeyond(conf: Conference, end: nat, l: nat, server: Server, first: nat, len: nat,
                                     more: bool)
    requires conf.Valid() && Beyond(conf, end, l, server) && 1 <= first && 0 < len
    requires first + len == end <= l < conf.highest
    ensures FetchGap(server, first, len, more) == (Globals(conf, first, l + 1), true)
    decreases len
  {
    if len <= 255 {
      GapMapsTo(conf, server, first, len, more, l + 1);
    } else {
      GapMapsTo(conf, server, first, len, more, first + 255);
      GapBeyond(conf, end, l, server, first + 255, len - 255, true);
      GlobalsSplit(conf, first, first + 255, l + 1);
    }
  }

  /** One request of a gap, answered by a mapping to `next`. */
  lemma GapMapsTo(conf: Conference, server: Server, first: nat, len: nat, more: bool, next: nat)
    requires conf.Valid() && 0 < len && first < next <= conf.highest && first + Least(255, len) <= next
    requires server(first, Least(255, len)) == MapTo(conf, first, next)
    ensures var n := Least(255, len);
            FetchGap(server, first, len, more) ==
            Behind(Globals(conf, first, next), FetchGap(server, next, len - n, true))
    ensures len <= 255 ==> FetchGap(server, first, len, more) == (Globals(conf, first, next), true)
  {
    var n, texts := Least(255, len), Globals(conf, first, next);
    MapToIsHonest(conf, first, n, next);
    FetchesOn(server, first, len, more);
    if len <= 255 {
      assert FetchGap(server, next, 0, true) == ([], true);
      assert texts + [] == texts;
    }
  }

  lemma FetchesOn(server: Server, first: nat, len: nat, more: bool)
    requires 0 < len && server(first, Least(255, len)).Mapped?
    ensures var n, m := Least(255, len), server(first, Least(255, len)).mapping;
            FetchGap(server, first, len, more) ==
            Behind(NonZero(m.entries), FetchGap(server, m.rangeEnd, len - n, m.laterTextsExist != 0))
  {
  }

  /** Nothing is unread in front of the first gap, and everything in it is. */
  lemma FirstGapIsMissed(conf: Conference, ranges: seq<ReadRange>, end: nat)
    requires Sorted(ranges) && Gaps(ranges, 1) != []
    requires Gaps(ranges, 1)[0].0 + Gaps(ranges, 1)[0].1 <= end
    ensures var g := Gaps(ranges, 1)[0];
            && 1 <= g.0
            && Missed(conf, ranges, 1, end) ==
               Globals(conf, g.0, g.0 + g.1) + Missed(conf, ranges, g.0 + g.1, end)
            && Missed(conf, ranges, 1, end) == Missed(conf, ranges, g.0, end)
  {
    var gaps := Gaps(ranges, 1);
    var g := gaps[0];
    GapsAreOrdered(ranges, 1);
    forall x: nat | 1 <= x < g.0 + g.1 ensures IsRead(ranges, x) <==> x < g.0 {
      GapsPartition(ranges, 1, x);
      assert g.0 <= x ==> InGap(gaps[0], x);
      assert x < g.0 ==> !InGaps(gaps, x);
    }
    MissedOfNone(conf, ranges, 1, g.0);
    MissedOfUnread(conf, ranges, g.0, g.0 + g.1);
    MissedSplit(conf, ranges, 1, g.0, end);
    MissedSplit(conf, ranges, g.0, g.0 + g.1, end);
  }

  /** Fewer texts are missed than exist, as soon as one of them is read. */
  lemma {:induction false} MissedIsShorter(conf: Conference, ranges: seq<ReadRange>, a: nat, b: nat, l: nat)
    ensures |Missed(conf, ranges, a, b)| <= |Globals(conf, a, b)|
    ensures l in conf.texts && a <= l < b && IsRead(ranges, l) ==>
              |Missed(conf, ranges, a, b)| < |Globals(conf, a, b)|
    decreases b - a
  {
    if a < b {
      MissedIsShorter(conf, ranges, a + 1, b, l);
    }
  }

  /** An unread text behind the first gap lies in a later one or behind the last range. */
  lemma BehindFirstGap(ranges: seq<ReadRange>, l: nat)
    requires Sorted(ranges) && Gaps(ranges, 1) != [] && !IsRead(ranges, l)
    requires Gaps(ranges, 1)[0].0 + Gaps(ranges, 1)[0].1 <= l
    ensures if |Gaps(ranges, 1)| == 1 then LastOf(ranges, 1) <= l else Gaps(ranges, 1)[1].0 <= l
  {
    var gaps := Gaps(ranges, 1);
    GapsAreOrdered(ranges, 1);
    GapsPartition(ranges, 1, l);
    if l < LastOf(ranges, 1) {
      var i :| 0 <= i < |gaps| && InGap(gaps[i], l);
      assert i >= 1;
      assert i > 1 ==> gaps[1].0 + gaps[1].1 < gaps[i].0;
    } else if |gaps| > 1 {
      assert gaps[1].0 + gaps[1].1 < LastOf(ranges, 1);
    }
  }

  /** The condition: without a gap, or with no text behind the first one, except that the only text there may be the
      one with the highest number ever used, if that is unread and no second gap exists. */
  ghost predicate CannotOvershoot(conf: Conference, ranges: seq<ReadRange>) {
    var gaps := Gaps(ranges, 1);
    gaps != [] ==> forall l :: l in conf.texts && gaps[0].0 + gaps[0].1 <= l ==> MayBeMapped(conf, ranges, l)
  }

  ghost predicate MayBeMapped(conf: Conference, ranges: seq<ReadRange>, l: nat) {
    |Gaps(ranges, 1)| == 1 && l == conf.highest && !IsRead(ranges, l)
  }

  lemma FetchFromFirstGap(server: Server, ranges: seq<ReadRange>)
    requires Gaps(ranges, 1) != []
    ensures var gaps := Gaps(ranges, 1);
            var here := FetchGap(server, gaps[0].0, gaps[0].1, true);
            FetchGaps(server, gaps, true) == Behind(here.0, FetchGaps(server, gaps[1..], here.1))
  {
    var gaps := Gaps(ranges, 1);
    assert gaps == [gaps[0]] + gaps[1..];
    FetchGapsCons(server, gaps[0], gaps[1..], true);
  }

  /** What mapping to the end yields for two gaps or more. */
  lemma TwoGapsToTheEnd(conf: Conference, server: Server, gaps: seq<(nat, nat)>, last: nat)
    requires conf.Valid() && ToTheEnd(conf, server) && |gaps| > 1 && Ordered(gaps, 1, last)
    ensures var end := conf.highest + 1;
            |FetchGaps(server, gaps[1..], false).0| >= |Globals(conf, gaps[1].0, end)|
  {
    assert gaps[1..] == [gaps[1]] + gaps[2..];
    FetchGapsCons(server, gaps[1], gaps[2..], false);
    GapToTheEnd(conf, server, gaps[1].0, gaps[1].1, false);
  }

  /** A read text behind the first gap, or a second gap in front of it: mapping to the end returns a text too many. */
  lemma TooManyToTheEnd(conf: Conference, server: Server, ranges: seq<ReadRange>, l: nat)
    requires conf.Valid() && Sorted(ranges) && ToTheEnd(conf, server) && Gaps(ranges, 1) != [] && l in conf.texts
    requires Gaps(ranges, 1)[0].0 + Gaps(ranges, 1)[0].1 <= l
    requires IsRead(ranges, l) || |Gaps(ranges, 1)| > 1
    ensures HonestServer(conf, server) && !Exact(conf, server, ranges)
  {
    var gaps, end := Gaps(ranges, 1), conf.highest + 1;
    var g := gaps[0];
    ToTheEndIsHonest(conf, server);
    GapsAreOrdered(ranges, 1);
    assert |Missed(conf, ranges, 1, end)| <= |Globals(conf, g.0, end)| &&
           (IsRead(ranges, l) ==> |Missed(conf, ranges, 1, end)| < |Globals(conf, g.0, end)|) by {
      FirstGapIsMissed(conf, ranges, end);
      MissedIsShorter(conf, ranges, g.0, end, l);
    }
    assert FetchGaps(server, gaps, true) ==
           Behind(Globals(conf, g.0, end), FetchGaps(server, gaps[1..], false)) by {
      FetchFromFirstGap(server, ranges);
      GapToTheEnd(conf, server, g.0, g.1, true);
    }
    if !IsRead(ranges, l) {
      TwoGapsToTheEnd(conf, server, gaps, LastOf(ranges, 1));
      BehindFirstGap(ranges, l);
      GlobalsHold(conf, gaps[1].0, end, conf.texts[l]);
    }
  }

  /** An unread text behind the only gap that is not the last one: mapping up to it returns it twice. */
  lemma TooManyBeyond(conf: Conference, server: Server, ranges: seq<ReadRange>, l: nat)
    requires conf.Valid() && Sorted(ranges) && |Gaps(ranges, 1)| == 1 && l in conf.texts
    requires Beyond(conf, Gaps(ranges, 1)[0].0 + Gaps(ranges, 1)[0].1, l, server)
    requires Gaps(ranges, 1)[0].0 + Gaps(ranges, 1)[0].1 <= l < conf.highest && !IsRead(ranges, l)
    ensures HonestServer(conf, server) && !Exact(conf, server, ranges)
  {
    var gaps, end, last := Gaps(ranges, 1), conf.highest + 1, LastOf(ranges, 1);
    var g := gaps[0];
    assert 1 <= g.0 && 0 < g.1 && 1 <= last <= l by {
      GapsAreOrdered(ranges, 1);
      BehindFirstGap(ranges, l);
    }
    assert |Missed(conf, ranges, 1, end)| <= |Globals(conf, g.0, end)| by {
      FirstGapIsMissed(conf, ranges, end);
      MissedIsShorter(conf, ranges, g.0, end, l);
    }
    CountedTwice(conf, g.0, last, l, end);
    FoundBeyond(conf, server, ranges, l, g, last);
  }

  /** The gap yields what lies up to `l`, and the tail all from the last range on. */
  lemma FoundBeyond(conf: Conference, server: Server, ranges: seq<ReadRange>, l: nat, g: (nat, nat), last: nat)
    requires conf.Valid() && Gaps(ranges, 1) == [g] && last == LastOf(ranges, 1)
    requires Beyond(conf, g.0 + g.1, l, server) && 1 <= g.0 && 0 < g.1 && 1 <= last && g.0 + g.1 <= l < conf.highest
    ensures HonestServer(conf, server)
    ensures UnreadTexts(conf, server, ranges) == Globals(conf, g.0, l + 1) + Globals(conf, last, conf.highest + 1)
  {
    BeyondIsHonest(conf, g.0 + g.1, l, server);
    OneGap(server, [g]);
    GapBeyond(conf, g.0 + g.1, l, server, g.0, g.1, true);
    TailIsExact(conf, server, last, true);
  }

  lemma OneGap(server: Server, gaps: seq<(nat, nat)>)
    requires |gaps| == 1
    ensures FetchGaps(server, gaps, true) == FetchGap(server, gaps[0].0, gaps[0].1, true)
  {
    var here := FetchGap(server, gaps[0].0, gaps[0].1, true);
    assert here.0 + [] == here.0;
  }

  lemma CountedTwice(conf: Conference, first: nat, last: nat, l: nat, end: nat)
    requires l in conf.texts && first <= l && last <= l < end
    ensures |Globals(conf, first, end)| < |Globals(conf, first, l + 1)| + |Globals(conf, last, end)|
  {
    GlobalsSplit(conf, first, l + 1, end);
    GlobalsSplit(conf, last, l, end);
    GlobalsSplit(conf, l, l + 1, end);
  }

  /** If nothing lies behind `first`, honest mappings contribute no text. */
  lemma {:induction false} NothingToFetch(conf: Conference, server: Server, first: nat, len: nat, more: bool)
    requires HonestServer(conf, server) && 1 <= first && NoTextsFrom(conf, first)
    ensures FetchGap(server, first, len, more).0 == []
    decreases len
  {
    if len > 0 {
      var n := Least(255, len);
      var reply := server(first, n);
      assert HonestAt(conf, server, first, n);
      match reply
      case NoSuchLocalText => NothingToFetch(conf, server, first, len - n, false);
      case Mapped(m) =>
        FaithfulLists(conf, first, m.rangeEnd, m.entries);
        GlobalsEmpty(conf, first, m.rangeEnd);
        NothingToFetch(conf, server, m.rangeEnd, len - n, m.laterTextsExist != 0);
    }
  }

  lemma {:induction false} NothingInGaps(conf: Conference, server: Server, gaps: seq<(nat, nat)>, more: bool)
    requires HonestServer(conf, server)
    requires forall i :: 0 <= i < |gaps| ==> 1 <= gaps[i].0 && NoTextsFrom(conf, gaps[i].0)
    ensures FetchGaps(server, gaps, more).0 == []
    decreases |gaps|
  {
    if gaps != [] {
      NothingToFetch(conf, server, gaps[0].0, gaps[0].1, more);
      NothingInGaps(conf, server, gaps[1..], FetchGap(server, gaps[0].0, gaps[0].1, more).1);
    }
  }

  /** Against every honest server a gap yields exactly its texts if none lie behind it. */
  lemma {:induction false} LastGapIsExact(conf: Conference, server: Server, first: nat, len: nat, more: bool)
    requires HonestServer(conf, server) && 1 <= first && NoTextsFrom(conf, first + len)
    ensures FetchGap(server, first, len, more).0 == Globals(conf, first, first + len)
    decreases len
  {
    if len > 0 {
      var n := Least(255, len);
      var reply := server(first, n);
      assert HonestAt(conf, server, first, n);
      match reply
      case NoSuchLocalText =>
        NothingToFetch(conf, server, first, len - n, false);
        GlobalsEmpty(conf, first, first + len);
      case Mapped(m) =>
        var end := first + len;
        FaithfulLists(conf, first, m.rangeEnd, m.entries);
        LastGapIsExact(conf, server, m.rangeEnd, len - n, m.laterTextsExist != 0);
        if m.rangeEnd <= end {
          GlobalsSplit(conf, first, m.rangeEnd, end);
          GlobalsUpTo(conf, m.rangeEnd, end, m.rangeEnd + (len - n));
        } else {
          GlobalsUpTo(conf, first, end, m.rangeEnd);
          GlobalsEmpty(conf, m.rangeEnd, m.rangeEnd + (len - n));
        }
    }
  }

  /** Numbers behind the last text make no difference. */
  lemma GlobalsUpTo(conf: Conference, first: nat, a: nat, b: nat)
    requires first <= a && first <= b && NoTextsFrom(conf, a) && NoTextsFrom(conf, b)
    ensures Globals(conf, first, a) == Globals(conf, first, b)
  {
    var least := Least(a, b);
    GlobalsSplit(conf, first, least, a);
    GlobalsSplit(conf, first, least, b);
    GlobalsEmpty(conf, least, a);
    GlobalsEmpty(conf, least, b);
  }

  lemma {:induction false} GlobalsOfNone(conf: Conference, a: nat, b: nat)
    requires forall l :: a <= l < b ==> l !in conf.texts
    ensures Globals(conf, a, b) == []
    decreases b - a
  {
    if a < b {
      GlobalsOfNone(conf, a + 1, b);
    }
  }

  /** With the highest text alone behind `end`, a gap in front of `end` yields its texts, or everything. */
  lemma {:induction false} GapMayReachTheEnd(conf: Conference, server: Server, first: nat, len: nat, more: bool,
                                             end: nat)
    requires HonestServer(conf, server) && 1 <= first <= conf.highest && conf.highest in conf.texts
    requires end <= conf.highest && end <= first + len && (len == 0 ==> more)
    requires forall l :: end <= l < conf.highest ==> l !in conf.texts
    ensures var fetched := FetchGap(server, first, len, more);
            || fetched == (Globals(conf, first, conf.highest + 1), false)
            || fetched == (Globals(conf, first, end), true)
    decreases len
  {
    if len > 0 {
      var n := Least(255, len);
      var reply := server(first, n);
      assert HonestAt(conf, server, first, n);
      var m := reply.mapping;
      FaithfulLists(conf, first, m.rangeEnd, m.entries);
      if m.rangeEnd == conf.highest + 1 {
        NothingBehindHighest(conf, server, m.rangeEnd, len - n, false);
        assert NonZero(m.entries) + [] == NonZero(m.entries);
      } else {
        GapMayReachTheEnd(conf, server, m.rangeEnd, len - n, true, end);
        GlobalsSplit(conf, first, m.rangeEnd, conf.highest + 1);
        GlobalsMeet(conf, first, m.rangeEnd, end);
      }
    }
  }

  lemma GlobalsMeet(conf: Conference, first: nat, next: nat, end: nat)
    requires first < next && forall l :: end <= l < next ==> l !in conf.texts
    ensures Globals(conf, first, next) + Globals(conf, next, end) == Globals(conf, first, end)
  {
    if next <= end {
      GlobalsSplit(conf, first, next, end);
    } else if first <= end {
      GlobalsSplit(conf, first, end, next);
      GlobalsOfNone(conf, end, next);
    } else {
      GlobalsOfNone(conf, first, next);
    }
  }

  /** Behind the first gap come later numbers only. */
  lemma LaterGapsHoldNothing(conf: Conference, server: Server, gaps: seq<(nat, nat)>, last: nat, more: bool)
    requires HonestServer(conf, server) && gaps != [] && Ordered(gaps, 1, last)
    requires NoTextsFrom(conf, gaps[0].0 + gaps[0].1)
    ensures FetchGaps(server, gaps[1..], more).0 == []
  {
    var later := gaps[1..];
    forall i | 0 <= i < |later| ensures 1 <= later[i].0 && NoTextsFrom(conf, later[i].0) {
      assert later[i] == gaps[i + 1] && gaps[0].0 + gaps[0].1 < gaps[i + 1].0;
    }
    NothingInGaps(conf, server, later, more);
  }

  lemma MissedInFirstGap(conf: Conference, ranges: seq<ReadRange>)
    requires Sorted(ranges) && Gaps(ranges, 1) != []
    requires NoTextsFrom(conf, Gaps(ranges, 1)[0].0 + Gaps(ranges, 1)[0].1)
    ensures var g := Gaps(ranges, 1)[0];
            1 <= g.0 && g.0 + g.1 <= LastOf(ranges, 1) &&
            Missed(conf, ranges, 1, LastOf(ranges, 1)) == Globals(conf, g.0, g.0 + g.1)
  {
    var g, last := Gaps(ranges, 1)[0], LastOf(ranges, 1);
    GapsAreOrdered(ranges, 1);
    FirstGapIsMissed(conf, ranges, last);
    MissedOfNone(conf, ranges, g.0 + g.1, last);
  }

  /** Nothing behind the first gap. */
  lemma NothingBehindIsExact(conf: Conference, server: Server, ranges: seq<ReadRange>)
    requires HonestServer(conf, server) && Sorted(ranges) && Gaps(ranges, 1) != []
    requires NoTextsFrom(conf, Gaps(ranges, 1)[0].0 + Gaps(ranges, 1)[0].1)
    ensures Exact(conf, server, ranges)
  {
    var gaps, last := Gaps(ranges, 1), LastOf(ranges, 1);
    var fetched := FetchGaps(server, gaps, true);
    MissedInFirstGap(conf, ranges);
    assert fetched.0 == Missed(conf, ranges, 1, last) by {
      GapsAreOrdered(ranges, 1);
      LastGapIsExact(conf, server, gaps[0].0, gaps[0].1, true);
      FetchFromFirstGap(server, ranges);
      LaterGapsHoldNothing(conf, server, gaps, last, FetchGap(server, gaps[0].0, gaps[0].1, true).1);
    }
    TailCompletes(conf, server, ranges, fetched.1);
  }

  ghost predicate OnlyHighestBehind(conf: Conference, ranges: seq<ReadRange>) {
    && |Gaps(ranges, 1)| == 1
    && CannotOvershoot(conf, ranges)
    && conf.highest in conf.texts
    && Gaps(ranges, 1)[0].0 + Gaps(ranges, 1)[0].1 <= conf.highest
  }

  lemma MissedInOnlyGap(conf: Conference, ranges: seq<ReadRange>)
    requires Sorted(ranges) && OnlyHighestBehind(conf, ranges)
    ensures var g, last := Gaps(ranges, 1)[0], LastOf(ranges, 1);
            && 1 <= g.0 && g.0 + g.1 <= last <= conf.highest
            && (forall l :: g.0 + g.1 <= l < conf.highest ==> l !in conf.texts)
            && Missed(conf, ranges, 1, last) == Globals(conf, g.0, g.0 + g.1)
  {
    var g, last, h := Gaps(ranges, 1)[0], LastOf(ranges, 1), conf.highest;
    forall l | g.0 + g.1 <= l < h ensures l !in conf.texts {
      assert !MayBeMapped(conf, ranges, l);
    }
    GapsAreOrdered(ranges, 1);
    BehindFirstGap(ranges, h);
    FirstGapIsMissed(conf, ranges, last);
    MissedOfNone(conf, ranges, g.0 + g.1, last);
  }

  /** The highest text alone behind the only gap. */
  lemma OnlyHighestIsExact(conf: Conference, server: Server, ranges: seq<ReadRange>)
    requires HonestServer(conf, server) && Sorted(ranges) && OnlyHighestBehind(conf, ranges)
    ensures Exact(conf, server, ranges)
  {
    var g, last, h := Gaps(ranges, 1)[0], LastOf(ranges, 1), conf.highest;
    MissedInOnlyGap(conf, ranges);
    OneGap(server, Gaps(ranges, 1));
    GapMayReachTheEnd(conf, server, g.0, g.1, true, g.0 + g.1);
    TailCompletes(conf, server, ranges, true);
    if !FetchGap(server, g.0, g.1, true).1 {
      TailIsExact(conf, server, last, true);
      GlobalsOverNone(conf, g.0, g.0 + g.1, last, h + 1);
    }
  }

  lemma GlobalsOverNone(conf: Conference, a: nat, b: nat, c: nat, d: nat)
    requires a <= b <= c <= d && forall l :: b <= l < c ==> l !in conf.texts
    ensures Globals(conf, a, d) == Globals(conf, a, b) + Globals(conf, c, d)
  {
    GlobalsSplit(conf, a, b, d);
    GlobalsSplit(conf, b, c, d);
    GlobalsOfNone(conf, b, c);
  }

  /** For one conference: the query is exact against each of its honest servers if and only if no mapping for a gap
      can overshoot to a text. */
  lemma ExactForConference(conf: Conference, ranges: seq<ReadRange>)
    requires conf.Valid() && Sorted(ranges)
    ensures (forall server :: HonestServer(conf, server) ==> Exact(conf, server, ranges)) <==>
            CannotOvershoot(conf, ranges)
  {
    var gaps := Gaps(ranges, 1);
    if gaps == [] {
      forall server | HonestServer(conf, server) ensures Exact(conf, server, ranges) {
        NoGapsAreExact(conf, server, ranges);
      }
    } else if CannotOvershoot(conf, ranges) {
      forall server | HonestServer(conf, server) ensures Exact(conf, server, ranges) {
        if NoTextsFrom(conf, gaps[0].0 + gaps[0].1) {
          NothingBehindIsExact(conf, server, ranges);
        } else {
          OnlyHighestIsExact(conf, server, ranges);
        }
      }
    } else {
      var end := gaps[0].0 + gaps[0].1;
      var l :| l in conf.texts && end <= l && !MayBeMapped(conf, ranges, l);
      SomeServerOvershoots(conf, ranges, l);
    }
  }

  lemma SomeServerOvershoots(conf: Conference, ranges: seq<ReadRange>, l: nat)
    requires conf.Valid() && Sorted(ranges) && Gaps(ranges, 1) != [] && l in conf.texts
    requires Gaps(ranges, 1)[0].0 + Gaps(ranges, 1)[0].1 <= l && !MayBeMapped(conf, ranges, l)
    ensures exists server :: HonestServer(conf, server) && !Exact(conf, server, ranges)
  {
    var gaps := Gaps(ranges, 1);
    var end := gaps[0].0 + gaps[0].1;
    if IsRead(ranges, l) || |gaps| > 1 {
      var server: Server := (first: nat, n: nat) => MapsToTheEnd(conf, first);
      TooManyToTheEnd(conf, server, ranges, l);
    } else {
      var server: Server := (first: nat, n: nat) => MapsBeyond(conf, end, l, first, n);
      TooManyBeyond(conf, server, ranges, l);
    }
  }

  /** For all conferences: the query is exact against every honest server of every conference if and only if the read
      ranges leave no gap. */
  lemma ExactAgainstAllHonestServers(ranges: seq<ReadRange>)
    requires Sorted(ranges)
    ensures (forall conf, server :: HonestServer(conf, server) ==> Exact(conf, server, ranges)) <==>
            Gaps(ranges, 1) == []
  {
    if Gaps(ranges, 1) == [] {
      forall conf, server | HonestServer(conf, server) ensures Exact(conf, server, ranges) {
        NoGapsAreExact(conf, server, ranges);
      }
    } else {
      var l := Gaps(ranges, 1)[0].0 + Gaps(ranges, 1)[0].1;
      FirstGapMeetsRange(ranges, 1);
      SomeServerOvershoots(Conference(map[l := 1], l), ranges, l);
    }
  }

  // ---------- Paging ----------

  /** Where an exact server makes the next request go on: behind what was asked for or at the end of the conference,
      or at the same place if it maps nothing. */
  function Continues(conf: Conference, server: Server, request: (nat, nat)): nat {
    if server(request.0, request.1).Mapped? then Least(request.0 + request.1, conf.highest + 1) else request.0
  }

  /** Every request but the last asks for 255 numbers, and the next goes on where it ended. */
  ghost predicate Follow(conf: Conference, server: Server, rs: seq<(nat, nat)>) {
    forall i :: 0 <= i < |rs| - 1 ==> rs[i].1 == 255 && rs[i + 1].0 == Continues(conf, server, rs[i])
  }

  lemma FollowCons(conf: Conference, server: Server, r: (nat, nat), rs: seq<(nat, nat)>)
    requires Follow(conf, server, rs) && (rs != [] ==> r.1 == 255 && rs[0].0 == Continues(conf, server, r))
    ensures Follow(conf, server, [r] + rs)
  {
    var all := [r] + rs;
    assert forall i :: 1 <= i < |all| ==> all[i] == rs[i - 1];
  }

  lemma ContinuesNext(conf: Conference, server: Server, first: nat, n: nat)
    requires ExactServer(conf, server) && 1 <= first && 1 <= n
    ensures NextLocal(server, first, n) == Continues(conf, server, (first, n)) && first <= NextLocal(server, first, n)
  {
    assert HonestAt(conf, server, first, n) && ExactAt(server, first, n);
  }

  /** For every gap: the requests start at the gap, ask for 255 numbers each and for the remaining ones at last, and
      follow one another. */
  lemma {:induction false} RequestsFollow(conf: Conference, server: Server, first: nat, len: nat)
    requires ExactServer(conf, server) && 1 <= first
    ensures var rs := GapRequests(server, first, len);
            && |rs| == (len + 254) / 255
            && (len > 0 ==> rs[0].0 == first && rs[|rs| - 1].1 == len - 255 * (|rs| - 1))
            && (forall i :: 0 <= i < |rs| - 1 ==> rs[i].1 == 255 && rs[i + 1].0 == Continues(conf, server, rs[i]))
    decreases len
  {
    if len > 0 {
      var n := Least(255, len);
      var next := NextLocal(server, first, n);
      var rest := GapRequests(server, next, len - n);
      ContinuesNext(conf, server, first, n);
      RequestsFollow(conf, server, next, len - n);
      assert GapRequests(server, first, len) == [(first, n)] + rest;
      assert Follow(conf, server, rest);
      FollowCons(conf, server, (first, n), rest);
    }
  }

  /** Requests for a gap the conference reaches over tile the gap. */
  lemma {:induction false} RequestsTile(conf: Conference, server: Server, first: nat, len: nat)
    requires ExactServer(conf, server) && 1 <= first && first + len <= conf.highest + 1
    requires forall a: nat, n: nat :: 1 <= a <= conf.highest && 1 <= n ==> server(a, n).Mapped?
    ensures var rs := GapRequests(server, first, len);
            && (forall i :: 0 <= i < |rs| - 1 ==> rs[i].0 + rs[i].1 == rs[i + 1].0)
            && (len > 0 ==> rs != [] && rs[0].0 == first && rs[|rs| - 1].0 + rs[|rs| - 1].1 == first + len)
    decreases len
  {
    if len > 0 {
      var n := Least(255, len);
      assert HonestAt(conf, server, first, n) && ExactAt(server, first, n);
      RequestsTile(conf, server, first + n, len - n);
    }
  }
}
