/** One time series: trimming, bucket compaction and what queries read from it. */
module MetricSeries {
  import opened Collections
  import opened Numbers

  /** `value` is an integer: counters and byte totals, with no rounding. */
  datatype Point = Point(timestamp: int, value: int)

  type Series = seq<Point>

  // ---- Trimming ----

  function KeepLast(s: Series, n: nat): Series
  {
    if |s| > n then s[|s| - n..] else s
  }

  /** Drop points from the front while they are older than `minTs`. */
  function DropOld(s: Series, minTs: int): Series
  {
    if s != [] && s[0].timestamp < minTs then DropOld(s[1..], minTs) else s
  }

  lemma {:induction false} DropOldSuffix(s: Series, minTs: int)
    ensures |DropOld(s, minTs)| <= |s| && DropOld(s, minTs) == s[|s| - |DropOld(s, minTs)|..]
    ensures forall i :: 0 <= i < |s| - |DropOld(s, minTs)| ==> s[i].timestamp < minTs
  {
    if s != [] && s[0].timestamp < minTs {
      DropOldSuffix(s[1..], minTs);
      forall i | 0 <= i < |s| - |DropOld(s, minTs)| ensures s[i].timestamp < minTs {
        if i > 0 {
          assert s[i] == s[1..][i - 1];
        }
      }
    }
  }

  lemma {:induction false} DropOldStops(s: Series, minTs: int)
    ensures DropOld(s, minTs) != [] ==> DropOld(s, minTs)[0].timestamp >= minTs
  {
    if s != [] && s[0].timestamp < minTs {
      DropOldStops(s[1..], minTs);
    }
  }

  ghost predicate TimeOrdered(s: Series)
  {
    forall i, j :: 0 <= i < j < |s| ==> s[i].timestamp <= s[j].timestamp
  }

  ghost predicate StrictlyOrdered(s: Series)
  {
    forall i, j :: 0 <= i < j < |s| ==> s[i].timestamp < s[j].timestamp
  }

  ghost predicate NonDecreasing(s: Series)
  {
    forall i, j :: 0 <= i < j < |s| ==> s[i].value <= s[j].value
  }

  function AtLeast(minTs: int): Point -> bool { (p: Point) => p.timestamp >= minTs }

  /** On a time-ordered series dropping the old front is keeping the young points. */
  lemma {:induction false} DropOldIsFilter(s: Series, minTs: int)
    requires TimeOrdered(s)
    ensures DropOld(s, minTs) == Filter(s, AtLeast(minTs))
  {
    if s == [] {
    } else if s[0].timestamp < minTs {
      DropOldIsFilter(s[1..], minTs);
      assert s == [s[0]] + s[1..];
      FilterAppend([s[0]], s[1..], AtLeast(minTs));
      FilterNone([s[0]], AtLeast(minTs));
    } else {
      FilterAll(s, AtLeast(minTs));
    }
  }

  // ---- Compaction ----

  /** With a zero interval the source does not get this far. */
  function Bucket(p: Point, interval: int): int
  {
    if interval == 0 then 0 else TruncDiv(p.timestamp, interval)
  }

  /** Position `i` ends a maximal run of equal buckets. */
  predicate RunEnd(s: Series, interval: int, i: nat)
    requires i < |s|
  {
    i == |s| - 1 || Bucket(s[i], interval) != Bucket(s[i + 1], interval)
  }

  /** The points of the first `n` positions that end a run, in order. */
  function RunEnds(s: Series, interval: int, n: nat): Series
    requires n <= |s|
  {
    if n == 0 then [] else
      RunEnds(s, interval, n - 1) + if RunEnd(s, interval, n - 1) then [s[n - 1]] else []
  }

  /** Exactly the last point of each maximal run of equal buckets. */
  function Compacted(s: Series, interval: int): Series
  {
    RunEnds(s, interval, |s|)
  }

  /** The bucket loop: remember the last point of the current bucket and push
      it when the bucket changes. */
  method CompactSeries(points: Series, interval: int) returns (result: Series)
    requires |points| >= 2 ==> interval != 0
    ensures result == Compacted(points, interval)
  {
    if |points| < 2 {
      assert |points| == 1 ==> RunEnds(points, interval, 0) == [];
      return points;
    }
    result := [];
    var current: Option<int> := None;
    var last: Option<Point> := None;
    for i := 0 to |points|
      invariant i == 0 ==> current == None && last == None && result == []
      invariant i > 0 ==> current == Some(Bucket(points[i - 1], interval)) && last == Some(points[i - 1])
      invariant i > 0 ==> result == RunEnds(points, interval, i - 1)
    {
      var bucket := Bucket(points[i], interval);
      match current
      case None =>
        current, last := Some(bucket), Some(points[i]);
      case Some(b) =>
        if b == bucket {
          last := Some(points[i]);
        } else {
          result := result + [last.value];
          current, last := Some(bucket), Some(points[i]);
        }
    }
    result := result + [last.value];
  }

  ghost predicate AdjacentDiffer(s: Series, interval: int)
  {
    forall i :: 0 <= i < |s| - 1 ==> Bucket(s[i], interval) != Bucket(s[i + 1], interval)
  }

  lemma {:induction false} FixedPoint(s: Series, interval: int, n: nat)
    requires n <= |s| && AdjacentDiffer(s, interval)
    ensures RunEnds(s, interval, n) == s[..n]
  {
    if n > 0 {
      FixedPoint(s, interval, n - 1);
      assert s[..n] == s[..n - 1] + [s[n - 1]];
    }
  }

  /** Up to position `n`, the last collected run end is in another bucket than `s[n]`. */
  lemma {:induction false} RunEndsLast(s: Series, interval: int, n: nat)
    requires n < |s|
    ensures var r := RunEnds(s, interval, n);
            r != [] ==> Bucket(r[|r| - 1], interval) != Bucket(s[n], interval)
  {
    if n > 0 && !RunEnd(s, interval, n - 1) {
      RunEndsLast(s, interval, n - 1);
    }
  }

  lemma {:induction false} RunEndsDiffer(s: Series, interval: int, n: nat)
    requires n <= |s|
    ensures AdjacentDiffer(RunEnds(s, interval, n), interval)
  {
    if n > 0 {
      RunEndsDiffer(s, interval, n - 1);
      RunEndsLast(s, interval, n - 1);
    }
  }

  /** Compacting twice is compacting once. */
  lemma CompactIdempotent(s: Series, interval: int)
    ensures Compacted(Compacted(s, interval), interval) == Compacted(s, interval)
  {
    var c := Compacted(s, interval);
    RunEndsDiffer(s, interval, |s|);
    FixedPoint(c, interval, |c|);
    assert c[..|c|] == c;
  }

  /** The position where the first run of equal buckets ends. */
  function FirstRunEnd(s: Series, interval: int): (i: nat)
    requires s != []
    ensures i < |s| && RunEnd(s, interval, i) && forall j :: 0 <= j < i ==> !RunEnd(s, interval, j)
  {
    FirstRunEndFrom(s, interval, 0)
  }

  function FirstRunEndFrom(s: Series, interval: int, from: nat): (i: nat)
    requires from < |s| && forall j :: 0 <= j < from ==> !RunEnd(s, interval, j)
    ensures i < |s| && RunEnd(s, interval, i) && forall j :: 0 <= j < i ==> !RunEnd(s, interval, j)
    decreases |s| - from
  {
    if RunEnd(s, interval, from) then from else FirstRunEndFrom(s, interval, from + 1)
  }

  lemma {:induction false} FirstCollected(s: Series, interval: int, n: nat)
    requires n <= |s| && s != []
    ensures var r, f := RunEnds(s, interval, n), FirstRunEnd(s, interval);
            if n <= f then r == [] else r != [] && r[0] == s[f]
  {
    if n > 0 {
      FirstCollected(s, interval, n - 1);
    }
  }

  /** Compaction moves the first point to the end of the first run and keeps the last. */
  lemma CompactEnds(s: Series, interval: int)
    requires s != []
    ensures var c := Compacted(s, interval);
            c != [] && c[0] == s[FirstRunEnd(s, interval)] && c[|c| - 1] == s[|s| - 1]
  {
    FirstCollected(s, interval, |s|);
  }

  // ---- Compacting the old part of a series ----

  function Older(threshold: int): Point -> bool { (p: Point) => p.timestamp < threshold }

  function OldPart(s: Series, threshold: int): Series { Filter(s, Older(threshold)) }

  function RecentPart(s: Series, threshold: int): Series { Filter(s, AtLeast(threshold)) }

  function CompactOld(s: Series, threshold: int, interval: int): Series
  {
    if |s| < 100 then s
    else Compacted(OldPart(s, threshold), interval) + RecentPart(s, threshold)
  }

  /** Compaction does not divide by a zero interval. */
  predicate Compactable(s: Series, threshold: int, interval: int)
  {
    interval != 0 || |s| < 100 || |OldPart(s, threshold)| < 2
  }

  lemma NoneRecent(s: Series, p: Point, threshold: int)
    requires TimeOrdered(s + [p]) && p.timestamp < threshold
    ensures RecentPart(s, threshold) == []
  {
    forall x | x in s ensures !AtLeast(threshold)(x) {
      var i :| 0 <= i < |s| && s[i] == x;
      assert (s + [p])[i].timestamp <= (s + [p])[|s|].timestamp;
    }
    FilterNone(s, AtLeast(threshold));
  }

  lemma {:induction false} OrderedSplit(s: Series, threshold: int)
    requires TimeOrdered(s)
    ensures OldPart(s, threshold) + RecentPart(s, threshold) == s
  {
    if s != [] {
      var init, p := s[..|s| - 1], s[|s| - 1];
      OrderedSplit(init, threshold);
      FilterUnfold(s, Older(threshold));
      FilterUnfold(s, AtLeast(threshold));
      if p.timestamp < threshold {
        NoneRecent(init, p, threshold);
        assert OldPart(s, threshold) + RecentPart(s, threshold) == init + [p];
      } else {
        assert OldPart(s, threshold) + RecentPart(s, threshold) == init + [p];
      }
    }
  }

  /** The last point is recent, or nothing is, or too little for compaction. */
  predicate LastSafe(s: Series, threshold: int)
    requires s != []
  {
    |s| < 100 || s[|s| - 1].timestamp >= threshold || RecentPart(s, threshold) == []
  }

  /** Compaction empties no series, and keeps its last point last if and only
      if no recent point stands before an old last one. */
  lemma CompactOldKeepsLastIff(s: Series, threshold: int, interval: int)
    requires s != []
    ensures var c := CompactOld(s, threshold, interval);
            c != [] && (c[|c| - 1] == s[|s| - 1] <==> LastSafe(s, threshold))
  {
    if |s| >= 100 {
      var p, aged, recent := s[|s| - 1], OldPart(s, threshold), RecentPart(s, threshold);
      FilterUnfold(s, Older(threshold));
      FilterUnfold(s, AtLeast(threshold));
      if recent == [] {
        CompactEnds(aged, interval);
        assert CompactOld(s, threshold, interval) == Compacted(aged, interval);
      } else {
        FilterMember(s, AtLeast(threshold), recent[|recent| - 1]);
      }
    }
  }

  /** A time-ordered series is of that kind. */
  lemma OrderedLastSafe(s: Series, threshold: int)
    requires TimeOrdered(s) && s != []
    ensures LastSafe(s, threshold)
  {
    OrderedSplit(s, threshold);
    var recent := RecentPart(s, threshold);
    if recent != [] {
      FilterMember(s, AtLeast(threshold), recent[|recent| - 1]);
      assert s[|s| - 1] == recent[|recent| - 1];
    }
  }

  function LateArrival(): Series { seq(100, i requires 0 <= i < 100 => Point(if i == 99 then 0 else 100, i)) }

  /** A hundredth point that arrives late, with an old time stamp, is last
      before compaction and not after. */
  lemma LateArrivalLosesLast()
    ensures var c := CompactOld(LateArrival(), 50, 60);
            c != [] && c[|c| - 1] != LateArrival()[99]
  {
    var s := LateArrival();
    assert s[0] in s;
    FilterMember(s, AtLeast(50), s[0]);
    CompactOldKeepsLastIff(s, 50, 60);
  }

  // ---- What queries read ----

  function InRange(from: int, to: int): Point -> bool { (p: Point) => from <= p.timestamp <= to }

  function Growth(s: Series): nat
  {
    if s == [] then 0 else Max(s[|s| - 1].value - s[0].value, 0)
  }

  /** What one series adds to a query's total. */
  datatype Query = Latest | Delta(from: int, to: int) | Total

  function Contribution(q: Query, s: Series): int
  {
    match q
    case Latest => if s == [] then 0 else s[|s| - 1].value
    case Delta(from, to) => Growth(Filter(s, InRange(from, to)))
    case Total => Growth(s)
  }

  /** The growth of a series inside its first compacted run. */
  function Lost(s: Series, threshold: int, interval: int): int
  {
    var aged := OldPart(s, threshold);
    if |s| < 100 || aged == [] then 0 else aged[FirstRunEnd(aged, interval)].value - aged[0].value
  }

  /** The ends of a compacted time-ordered series. */
  lemma CompactOldEnds(s: Series, threshold: int, interval: int)
    requires TimeOrdered(s) && |s| >= 100
    ensures var c, aged := CompactOld(s, threshold, interval), OldPart(s, threshold);
            && c != [] && c[|c| - 1] == s[|s| - 1]
            && if aged == [] then c[0] == s[0]
               else var f := FirstRunEnd(aged, interval); f < |s| && c[0] == aged[f] == s[f] && aged[0] == s[0]
  {
    var aged := OldPart(s, threshold);
    OrderedSplit(s, threshold);
    OrderedLastSafe(s, threshold);
    CompactOldKeepsLastIff(s, threshold, interval);
    if aged != [] {
      CompactEnds(aged, interval);
      assert aged[0] == s[0] && aged[FirstRunEnd(aged, interval)] == s[FirstRunEnd(aged, interval)];
    } else {
      assert CompactOld(s, threshold, interval) == s;
    }
  }

  /** A counter's total shrinks by exactly its growth inside the first
      compacted run, and only if something was compacted. */
  lemma CompactOldGrowth(s: Series, threshold: int, interval: int)
    requires TimeOrdered(s) && NonDecreasing(s)
    ensures var lost := Lost(s, threshold, interval);
            0 <= lost && Growth(CompactOld(s, threshold, interval)) == Growth(s) - lost
  {
    if |s| >= 100 {
      CompactOldEnds(s, threshold, interval);
      var aged := OldPart(s, threshold);
      if aged != [] {
        var f := FirstRunEnd(aged, interval);
        assert f > 0 ==> s[0].value <= s[f].value;
        assert f < |s| - 1 ==> s[f].value <= s[|s| - 1].value;
      }
    }
  }
}
