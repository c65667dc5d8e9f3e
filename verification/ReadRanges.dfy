/** Which local text numbers a list of read ranges leaves unread (utils.py). */
module ReadRanges {
  datatype ReadRange = ReadRange(firstRead: nat, lastRead: nat)

  predicate Reads(r: ReadRange, x: nat) {
    r.firstRead <= x <= r.lastRead
  }

  ghost predicate IsRead(ranges: seq<ReadRange>, x: nat) {
    exists i :: 0 <= i < |ranges| && Reads(ranges[i], x)
  }

  /** Ascending and disjoint, as a server keeps them. */
  ghost predicate Sorted(ranges: seq<ReadRange>) {
    && (forall i :: 0 <= i < |ranges| ==> ranges[i].firstRead <= ranges[i].lastRead)
    && (forall i, j :: 0 <= i < j < |ranges| ==> ranges[i].lastRead < ranges[j].firstRead)
  }

  function GapBefore(last: nat, r: ReadRange): seq<(nat, nat)> {
    if last < r.firstRead then [(last, r.firstRead - last)] else []
  }

  /** The gaps from `last` on, as pairs of the first unread number and the length. */
  function Gaps(ranges: seq<ReadRange>, last: nat): seq<(nat, nat)> {
    if ranges == [] then [] else GapBefore(last, ranges[0]) + Gaps(ranges[1..], ranges[0].lastRead + 1)
  }

  function LastOf(ranges: seq<ReadRange>, last: nat): nat {
    if ranges == [] then last else LastOf(ranges[1..], ranges[0].lastRead + 1)
  }

  function Append(gaps: seq<(nat, nat)>, last: nat, r: ReadRange): seq<(nat, nat)> {
    gaps + GapBefore(last, r)
  }

  /** What one turn of the loop leaves to do. */
  lemma GapsStep(gaps: seq<(nat, nat)>, ranges: seq<ReadRange>, i: nat, last: nat)
    requires i < |ranges|
    ensures gaps + Gaps(ranges[i..], last) ==
            Append(gaps, last, ranges[i]) + Gaps(ranges[i + 1..], ranges[i].lastRead + 1)
    ensures LastOf(ranges[i..], last) == LastOf(ranges[i + 1..], ranges[i].lastRead + 1)
  {
    var rest := ranges[i..];
    assert rest[1..] == ranges[i + 1..];
  }

  method ReadRangesToGapsAndLast(ranges: seq<ReadRange>) returns (gaps: seq<(nat, nat)>, last: nat)
    ensures gaps == Gaps(ranges, 1) && last == LastOf(ranges, 1)
  {
    gaps, last := [], 1;
    ghost var all, end := Gaps(ranges, 1), LastOf(ranges, 1);
    assert ranges[0..] == ranges && [] + all == all;
    for i := 0 to |ranges|
      invariant all == gaps + Gaps(ranges[i..], last) && end == LastOf(ranges[i..], last)
    {
      GapsStep(gaps, ranges, i, last);
      ghost var more := Append(gaps, last, ranges[i]);
      var gap: int := ranges[i].firstRead - last;
      if gap > 0 {
        gaps := gaps + [(last, gap)];
      }
      assert gaps == more;
      last := ranges[i].lastRead + 1;
    }
    assert gaps + [] == gaps;
  }

  predicate InGap(g: (nat, nat), x: nat) {
    g.0 <= x < g.0 + g.1
  }

  ghost predicate InGaps(gaps: seq<(nat, nat)>, x: nat) {
    exists i :: 0 <= i < |gaps| && InGap(gaps[i], x)
  }

  lemma IsReadSplit(ranges: seq<ReadRange>, x: nat)
    requires ranges != []
    ensures IsRead(ranges, x) <==> Reads(ranges[0], x) || IsRead(ranges[1..], x)
  {
    if IsRead(ranges, x) && !Reads(ranges[0], x) {
      var i :| 0 <= i < |ranges| && Reads(ranges[i], x);
      assert Reads(ranges[1..][i - 1], x);
    }
    if IsRead(ranges[1..], x) {
      var i :| 0 <= i < |ranges[1..]| && Reads(ranges[1..][i], x);
      assert Reads(ranges[i + 1], x);
    }
  }

  /** Nothing below the first of the sorted ranges is read. */
  lemma ReadFromFirst(ranges: seq<ReadRange>, x: nat)
    requires Sorted(ranges) && ranges != [] && IsRead(ranges, x)
    ensures ranges[0].firstRead <= x
  {
    var i :| 0 <= i < |ranges| && Reads(ranges[i], x);
    if i > 0 {
      assert ranges[0].firstRead <= ranges[0].lastRead < ranges[i].firstRead;
    }
  }

  lemma InGapsSplit(g: (nat, nat), gaps: seq<(nat, nat)>, x: nat)
    ensures InGaps([g] + gaps, x) <==> InGap(g, x) || InGaps(gaps, x)
  {
    var all := [g] + gaps;
    if InGap(g, x) {
      assert InGap(all[0], x);
    }
    if InGaps(gaps, x) {
      var i :| 0 <= i < |gaps| && InGap(gaps[i], x);
      assert InGap(all[i + 1], x);
    }
    if InGaps(all, x) {
      var i :| 0 <= i < |all| && InGap(all[i], x);
      assert i > 0 ==> InGap(gaps[i - 1], x);
    }
  }

  /** Not empty, ascending, not touching each other, from `from` on and in front of `to`. */
  ghost predicate Ordered(gaps: seq<(nat, nat)>, from: nat, to: nat) {
    && (forall i :: 0 <= i < |gaps| ==> 0 < gaps[i].1 && from <= gaps[i].0 && gaps[i].0 + gaps[i].1 < to)
    && (forall i, j :: 0 <= i < j < |gaps| ==> gaps[i].0 + gaps[i].1 < gaps[j].0)
  }

  lemma OrderedCons(g: (nat, nat), gaps: seq<(nat, nat)>, mid: nat, to: nat)
    requires Ordered(gaps, mid, to) && 0 < g.1 && g.0 + g.1 < mid <= to
    ensures Ordered([g] + gaps, g.0, to)
  {
    var all := [g] + gaps;
    assert forall i :: 1 <= i < |all| ==> all[i] == gaps[i - 1];
  }

  lemma OrderedBefore(r: ReadRange, gaps: seq<(nat, nat)>, last: nat, to: nat)
    requires Ordered(gaps, r.lastRead + 1, to) && r.firstRead <= r.lastRead && last <= r.lastRead + 1 <= to
    ensures Ordered(GapBefore(last, r) + gaps, last, to)
  {
    if last < r.firstRead {
      OrderedCons((last, r.firstRead - last), gaps, r.lastRead + 1, to);
    } else {
      assert GapBefore(last, r) + gaps == gaps;
    }
  }

  lemma SortedRest(ranges: seq<ReadRange>)
    requires Sorted(ranges) && ranges != []
    ensures ranges[0].firstRead <= ranges[0].lastRead && Sorted(ranges[1..])
    ensures ranges[1..] == [] || ranges[0].lastRead + 1 <= ranges[1..][0].lastRead + 1
  {
  }

  lemma {:induction false} GapsAreOrdered(ranges: seq<ReadRange>, last: nat)
    requires Sorted(ranges) && (ranges == [] || last <= ranges[0].lastRead + 1)
    ensures Ordered(Gaps(ranges, last), last, LastOf(ranges, last))
    decreases |ranges|
  {
    if ranges != [] {
      var r, rest := ranges[0], ranges[1..];
      SortedRest(ranges);
      GapsAreOrdered(rest, r.lastRead + 1);
      LastGrows(rest, r.lastRead + 1);
      OrderedBefore(r, Gaps(rest, r.lastRead + 1), last, LastOf(rest, r.lastRead + 1));
    }
  }

  lemma {:induction false} LastGrows(ranges: seq<ReadRange>, last: nat)
    requires Sorted(ranges) && (ranges == [] || last <= ranges[0].lastRead + 1)
    ensures last <= LastOf(ranges, last)
    decreases |ranges|
  {
    if ranges != [] {
      LastGrows(ranges[1..], ranges[0].lastRead + 1);
    }
  }

  lemma BeforeSplit(r: ReadRange, gaps: seq<(nat, nat)>, last: nat, x: nat)
    ensures InGaps(GapBefore(last, r) + gaps, x) <==> last <= x < r.firstRead || InGaps(gaps, x)
  {
    if last < r.firstRead {
      InGapsSplit((last, r.firstRead - last), gaps, x);
    } else {
      assert GapBefore(last, r) + gaps == gaps;
    }
  }

  lemma NotBelow(gaps: seq<(nat, nat)>, from: nat, to: nat, x: nat)
    requires Ordered(gaps, from, to) && x < from
    ensures !InGaps(gaps, x)
  {
  }

  /** Up to the end of the first range: unread in front of it, read in it. */
  lemma PartitionAtFirst(ranges: seq<ReadRange>, last: nat, x: nat)
    requires Sorted(ranges) && ranges != [] && last <= x <= ranges[0].lastRead
    ensures InGaps(Gaps(ranges, last), x) <==> x < LastOf(ranges, last) && !IsRead(ranges, x)
    ensures x < LastOf(ranges, last)
  {
    var r, rest := ranges[0], ranges[1..];
    var later := Gaps(rest, r.lastRead + 1);
    IsReadSplit(ranges, x);
    SortedRest(ranges);
    BeforeSplit(r, later, last, x);
    LastGrows(rest, r.lastRead + 1);
    GapsAreOrdered(rest, r.lastRead + 1);
    NotBelow(later, r.lastRead + 1, LastOf(rest, r.lastRead + 1), x);
    NotReadBelow(ranges, rest, x);
  }

  /** Gaps and ranges partition the numbers in front of `last`; from `last` on nothing is read. */
  lemma {:induction false} GapsPartition(ranges: seq<ReadRange>, last: nat, x: nat)
    requires Sorted(ranges) && (ranges == [] || last <= ranges[0].lastRead + 1)
    requires last <= x
    ensures InGaps(Gaps(ranges, last), x) <==> x < LastOf(ranges, last) && !IsRead(ranges, x)
    ensures LastOf(ranges, last) <= x ==> !IsRead(ranges, x)
    decreases |ranges|
  {
    if ranges != [] {
      var r, rest := ranges[0], ranges[1..];
      if x <= r.lastRead {
        PartitionAtFirst(ranges, last, x);
      } else {
        IsReadSplit(ranges, x);
        SortedRest(ranges);
        BeforeSplit(r, Gaps(rest, r.lastRead + 1), last, x);
        GapsPartition(rest, r.lastRead + 1, x);
      }
    }
  }

  /** A number up to the end of the first range is not read by a later one. */
  lemma NotReadBelow(ranges: seq<ReadRange>, rest: seq<ReadRange>, x: nat)
    requires Sorted(ranges) && ranges != [] && rest == ranges[1..] && x <= ranges[0].lastRead
    ensures !IsRead(rest, x)
  {
    assert forall i :: 0 <= i < |rest| ==> rest[i] == ranges[i + 1];
  }
}
