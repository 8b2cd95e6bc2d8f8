/**
 Traffic accounting: day and month boundaries, and the segments a time range
 is cut into.  Instants are nanoseconds since 1970.
 */
module Traffic {
  import opened Collections
  import opened Calendar
  import opened MetricSeries
  import opened MetricStore
  import opened MetricStorage
  import MetricOrder

  const DAY: int := 86_400_000_000_000
  const MILLI: int := 1_000_000

  type Instant = int

  function Millis(t: Instant): int { t / MILLI }

  /** The metric store's times are whole milliseconds, of which a day has 86 400 000. */
  lemma DayInMillis(t: Instant)
    ensures Millis(t + DAY) == Millis(t) + 86_400_000
    ensures Millis(t) * 1_000_000 <= t < (Millis(t) + 1) * 1_000_000
  {
  }

  function DayOf(t: Instant): int { t / DAY }

  function TimeOfDay(t: Instant): (r: int)
    ensures 0 <= r < DAY
  {
    t % DAY
  }

  function DayStart(t: Instant): Instant { DayOf(t) * DAY }

  // ---- Monthly anchors ----

  /** The day before the first of the next month, as a day of its month. */
  function DaysInMonth(i: int): int { DayOfMonth(MonthStart(i + 1) - 1) }

  lemma DaysInMonthIsLength(i: int)
    ensures DaysInMonth(i) == MonthLength(i)
  {
    var last := MonthStart(i + 1) - 1;
    NextMonth(i);
    MonthUnique(last, MonthOf(last), i);
  }

  function Min(a: int, b: int): int { if a < b then a else b }

  /** Day `day` of month `i`, clamped to the month's last day, at a time of day. */
  function BuildAnchor(i: int, day: int, time: int): Instant
  {
    (MonthStart(i) + Min(day, DaysInMonth(i)) - 1) * DAY + time
  }

  /** The anniversary of `created` in month `i`. */
  function Anniversary(created: Instant, i: int): Instant
  {
    BuildAnchor(i, DayOfMonth(DayOf(created)), TimeOfDay(created))
  }

  /** The anniversary in month `i` lies in that month, at the same time of day,
      on the same day of the month or, in a shorter month, on its last; in the
      month of creation it is the instant of creation. */
  lemma AnniversaryMeaning(created: Instant, i: int)
    ensures var a, day := Anniversary(created, i), DayOfMonth(DayOf(created));
            && MonthOf(DayOf(a)) == i && TimeOfDay(a) == TimeOfDay(created)
            && DayOfMonth(DayOf(a)) == (if day <= MonthLength(i) then day else MonthLength(i))
            && (i == MonthOf(DayOf(created)) ==> a == created)
  {
    var day, time := DayOfMonth(DayOf(created)), TimeOfDay(created);
    DaysInMonthIsLength(i);
    var d := MonthStart(i) + Min(day, DaysInMonth(i)) - 1;
    DivideDays(d, time);
    NextMonth(i);
    MonthUnique(d, MonthOf(d), i);
    assert created == DayOf(created) * DAY + time;
  }

  lemma DivideDays(d: int, time: int)
    requires 0 <= time < DAY
    ensures (d * DAY + time) / DAY == d && (d * DAY + time) % DAY == time
  {
  }

  function MonthlyAnchor(created: Instant, now: Instant): Instant
  {
    var i := MonthOf(DayOf(now));
    if Anniversary(created, i) > now then Anniversary(created, i - 1) else Anniversary(created, i)
  }

  function PrevMonthlyAnchor(created: Instant, anchor: Instant): Instant
  {
    Anniversary(created, MonthOf(DayOf(anchor)) - 1)
  }

  /** An anniversary lies in its own month. */
  lemma AnniversaryInMonth(created: Instant, i: int)
    ensures InMonth(DayOf(Anniversary(created, i)), i)
    ensures MonthOf(DayOf(Anniversary(created, i))) == i
  {
    var day := MonthStart(i) + Min(DayOfMonth(DayOf(created)), DaysInMonth(i)) - 1;
    DaysInMonthIsLength(i);
    assert DayOf(Anniversary(created, i)) == day;
    MonthUnique(day, MonthOf(day), i);
  }

  lemma DayOrder(s: Instant, t: Instant)
    requires DayOf(s) < DayOf(t)
    ensures s < t
  {
  }

  lemma AnniversariesIncrease(created: Instant, i: int, j: int)
    requires i < j
    ensures Anniversary(created, i) < Anniversary(created, j)
  {
    AnniversaryInMonth(created, i);
    AnniversaryInMonth(created, j);
    NextMonth(i);
    MonthsIncrease(i + 1, j);
    DayOrder(Anniversary(created, i), Anniversary(created, j));
  }

  lemma AnniversaryOfEarlierMonth(created: Instant, i: int, now: Instant)
    requires i < MonthOf(DayOf(now))
    ensures Anniversary(created, i) < now
  {
    AnniversaryInMonth(created, i);
    NextMonth(i);
    MonthsIncrease(i + 1, MonthOf(DayOf(now)));
    DayOrder(Anniversary(created, i), now);
  }

  lemma AnniversaryOfLaterMonth(created: Instant, i: int, now: Instant)
    requires i > MonthOf(DayOf(now))
    ensures now < Anniversary(created, i)
  {
    var j := MonthOf(DayOf(now));
    AnniversaryInMonth(created, i);
    NextMonth(j);
    MonthsIncrease(j + 1, i);
    DayOrder(now, Anniversary(created, i));
  }

  ghost predicate IsAnniversary(created: Instant, t: Instant)
  {
    exists i :: t == Anniversary(created, i)
  }

  lemma AnniversariesUpTo(created: Instant, i: int, k: int)
    requires i <= k
    ensures Anniversary(created, i) <= Anniversary(created, k)
  {
    if i < k {
      AnniversariesIncrease(created, i, k);
    }
  }

  lemma GreatestAnniversary(created: Instant, now: Instant, i: int, k: int)
    requires now < Anniversary(created, i + 1)
    ensures Anniversary(created, k) <= Anniversary(created, i) || now < Anniversary(created, k)
  {
    if k <= i {
      AnniversariesUpTo(created, k, i);
    } else {
      AnniversariesUpTo(created, i + 1, k);
    }
  }

  lemma AnchorLastMonth(created: Instant, now: Instant, m: int)
    requires m == MonthOf(DayOf(now)) && now < Anniversary(created, m)
    ensures MonthlyAnchor(created, now) == Anniversary(created, m - 1) < now
  {
    AnniversaryOfEarlierMonth(created, m - 1, now);
  }

  lemma AnchorThisMonth(created: Instant, now: Instant, m: int)
    requires m == MonthOf(DayOf(now)) && Anniversary(created, m) <= now
    ensures MonthlyAnchor(created, now) == Anniversary(created, m) <= now < Anniversary(created, m + 1)
  {
    AnniversaryOfLaterMonth(created, m + 1, now);
  }

  lemma AnchorMonth(created: Instant, now: Instant) returns (i: int)
    ensures MonthlyAnchor(created, now) == Anniversary(created, i)
    ensures Anniversary(created, i) <= now < Anniversary(created, i + 1)
  {
    i := MonthOf(DayOf(now));
    if now < Anniversary(created, i) {
      AnchorLastMonth(created, now, i);
      i := i - 1;
    } else {
      AnchorThisMonth(created, now, i);
    }
  }

  /** The monthly anchor is the greatest anniversary not after `now`. */
  lemma AnchorIsGreatest(created: Instant, now: Instant) returns (i: int)
    ensures MonthlyAnchor(created, now) == Anniversary(created, i) <= now
    ensures now < Anniversary(created, i + 1)
    ensures forall k :: Anniversary(created, k) <= now ==> Anniversary(created, k) <= Anniversary(created, i)
  {
    i := AnchorMonth(created, now);
    forall k ensures Anniversary(created, k) <= Anniversary(created, i) || now < Anniversary(created, k) {
      GreatestAnniversary(created, now, i, k);
    }
  }

  lemma PrevAnchorOf(created: Instant, anchor: Instant, i: int)
    requires MonthOf(DayOf(anchor)) == i
    ensures PrevMonthlyAnchor(created, anchor) == Anniversary(created, i - 1)
  {
  }

  /** The previous anchor of an anniversary is the anniversary before it. */
  lemma PrevAnchorIsPrevious(created: Instant, i: int)
    ensures PrevMonthlyAnchor(created, Anniversary(created, i)) == Anniversary(created, i - 1)
    ensures Anniversary(created, i - 1) < Anniversary(created, i)
  {
    assert PrevMonthlyAnchor(created, Anniversary(created, i)) == Anniversary(created, i - 1) by {
      AnniversaryInMonth(created, i);
      PrevAnchorOf(created, Anniversary(created, i), i);
    }
    AnniversariesIncrease(created, i - 1, i);
  }

  // ---- Boundaries ----

  predicate IsMidnight(t: Instant) { t % DAY == 0 }

  ghost predicate IsBoundary(created: Instant, t: Instant)
  {
    IsMidnight(t) || IsAnniversary(created, t)
  }

  lemma NextMidnight(d: Instant, t: Instant)
    requires IsMidnight(d) && IsMidnight(t) && d < t
    ensures d + DAY <= t
  {
    assert d == DAY * (d / DAY) && t == DAY * (t / DAY);
  }

  lemma DayStartIsMidnight(t: Instant)
    ensures IsMidnight(DayStart(t)) && DayStart(t) <= t < DayStart(t) + DAY
  {
  }

  /** The midnights in (from, to], latest first. */
  method Midnights(from: Instant, to: Instant) returns (bs: seq<Instant>)
    requires from < to
    ensures forall t :: t in bs <==> from < t <= to && IsMidnight(t)
  {
    bs := [];
    var d := DayStart(to);
    DayStartIsMidnight(to);
    forall t | d < t <= to && IsMidnight(t) ensures false {
      NextMidnight(d, t);
    }
    while d > from && d <= to
      invariant IsMidnight(d) && d <= to
      invariant forall t :: t in bs <==> d < t <= to && IsMidnight(t)
      invariant forall t :: t in bs ==> from < t
      decreases d - from
    {
      forall t | d - DAY < t <= to && IsMidnight(t) ensures t == d || d < t {
        if t < d {
          NextMidnight(t, d);
        }
      }
      bs := bs + [d];
      d := d - DAY;
      assert IsMidnight(d);
    }
  }

  /** The anniversaries in (from, to], latest first. */
  method Anniversaries(created: Instant, from: Instant, to: Instant) returns (bs: seq<Instant>)
    requires from < to
    ensures forall t :: t in bs <==> from < t <= to && IsAnniversary(created, t)
  {
    bs := [];
    var m := MonthlyAnchor(created, to);
    ghost var i := AnchorIsGreatest(created, to);
    AnniversariesAfter(created, i, to);
    while m > from && m <= to
      invariant m == Anniversary(created, i) && m <= to
      invariant ListsAnniversaries(created, m, to, bs)
      invariant forall t :: t in bs ==> from < t
      decreases m - from
    {
      AnniversaryStep(created, i, to, bs);
      bs := bs + [m];
      m := PrevMonthlyAnchor(created, m);
      i := i - 1;
    }
  }

  ghost predicate ListsAnniversaries(created: Instant, after: Instant, to: Instant, bs: seq<Instant>)
  {
    forall t :: t in bs <==> after < t <= to && IsAnniversary(created, t)
  }

  lemma AnniversaryStep(created: Instant, i: int, to: Instant, bs: seq<Instant>)
    requires Anniversary(created, i) <= to && ListsAnniversaries(created, Anniversary(created, i), to, bs)
    ensures PrevMonthlyAnchor(created, Anniversary(created, i)) == Anniversary(created, i - 1)
    ensures Anniversary(created, i - 1) < Anniversary(created, i)
    ensures ListsAnniversaries(created, Anniversary(created, i - 1), to, bs + [Anniversary(created, i)])
  {
    var a, b := Anniversary(created, i - 1), Anniversary(created, i);
    PrevAnchorIsPrevious(created, i);
    AnniversariesBetween(created, i);
    assert IsAnniversary(created, b);
    forall t ensures t in bs + [b] <==> a < t <= to && IsAnniversary(created, t) {
      assert t in bs <==> b < t <= to && IsAnniversary(created, t);
    }
  }

  lemma AnniversariesAfter(created: Instant, i: int, to: Instant)
    requires to < Anniversary(created, i + 1)
    ensures forall t :: Anniversary(created, i) < t <= to ==> !IsAnniversary(created, t)
  {
    forall k ensures Anniversary(created, k) <= Anniversary(created, i) || to < Anniversary(created, k) {
      GreatestAnniversary(created, to, i, k);
    }
  }

  lemma AnniversariesBetween(created: Instant, i: int)
    ensures forall t :: Anniversary(created, i - 1) < t < Anniversary(created, i) ==> !IsAnniversary(created, t)
  {
    forall k
      ensures Anniversary(created, k) <= Anniversary(created, i - 1) || Anniversary(created, i) <= Anniversary(created, k)
    {
      if k <= i - 1 {
        AnniversariesUpTo(created, k, i - 1);
      } else {
        AnniversariesUpTo(created, i, k);
      }
    }
  }

  // ---- Split points ----

  ghost predicate Ascending(s: seq<Instant>)
  {
    forall i, j :: 0 <= i < j < |s| ==> s[i] < s[j]
  }

  /** Insert into an ascending sequence, unless already there. */
  function InsertSorted(x: Instant, s: seq<Instant>): (r: seq<Instant>)
    requires Ascending(s)
    ensures Ascending(r) && forall t :: t in r <==> t == x || t in s
  {
    if s == [] || x < s[0] then [x] + s
    else if x == s[0] then s
    else
      assert s == [s[0]] + s[1..];
      var rest := InsertSorted(x, s[1..]);
      AscendingCons(s[0], rest);
      [s[0]] + rest
  }

  lemma AscendingCons(x: Instant, s: seq<Instant>)
    requires Ascending(s) && forall t :: t in s ==> x < t
    ensures Ascending([x] + s)
  {
    var r := [x] + s;
    forall i, j | 0 <= i < j < |r| ensures r[i] < r[j] {
      assert r[j] == s[j - 1] && r[j] in s;
      if i > 0 {
        assert r[i] == s[i - 1];
      }
    }
  }

  /** `sort` followed by `dedup`. */
  function SortDedup(s: seq<Instant>): (r: seq<Instant>)
    ensures Ascending(r) && forall t :: t in r <==> t in s
  {
    if s == [] then [] else
      assert s == s[..|s| - 1] + [s[|s| - 1]];
      InsertSorted(s[|s| - 1], SortDedup(s[..|s| - 1]))
  }

  /** The range cut at every boundary: from first, to last. */
  method SplitPoints(created: Instant, from: Instant, to: Instant) returns (points: seq<Instant>)
    requires from < to
    ensures IsTiling(created, from, to, points)
  {
    var midnights := Midnights(from, to);
    var anniversaries := Anniversaries(created, from, to);
    var boundaries := SortDedup(midnights + anniversaries);
    var all := [from] + boundaries + [to];
    points := SortDedup(all);
    TilingOf(created, from, to, midnights, anniversaries, points);
  }

  lemma TilingOf(created: Instant, from: Instant, to: Instant,
                 midnights: seq<Instant>, anniversaries: seq<Instant>, points: seq<Instant>)
    requires from < to && Ascending(points)
    requires forall t :: t in midnights <==> from < t <= to && IsMidnight(t)
    requires forall t :: t in anniversaries <==> from < t <= to && IsAnniversary(created, t)
    requires forall t :: t in points <==> t in [from] + SortDedup(midnights + anniversaries) + [to]
    ensures IsTiling(created, from, to, points)
  {
    forall t ensures t in points <==> t == from || t == to || (from < t <= to && IsBoundary(created, t)) {
      assert t in SortDedup(midnights + anniversaries) <==> t in midnights || t in anniversaries;
    }
    EndsOf(points, from, to);
  }

  /** The points tile [from, to] and are its ends and its boundaries. */
  ghost predicate IsTiling(created: Instant, from: Instant, to: Instant, points: seq<Instant>)
  {
    && |points| >= 2 && points[0] == from && points[|points| - 1] == to
    && Ascending(points)
    && forall t :: t in points <==> t == from || t == to || (from < t <= to && IsBoundary(created, t))
  }

  lemma EndsOf(points: seq<Instant>, from: Instant, to: Instant)
    requires Ascending(points) && from in points && to in points && from < to
    requires forall t :: t in points ==> from <= t <= to
    ensures |points| >= 2 && points[0] == from && points[|points| - 1] == to
  {
    var i :| 0 <= i < |points| && points[i] == from;
    var j :| 0 <= j < |points| && points[j] == to;
    assert points[0] in points && points[|points| - 1] in points;
  }

  /** No midnight and no anniversary lies strictly inside a segment. */
  lemma NoBoundaryInside(created: Instant, from: Instant, to: Instant, points: seq<Instant>, k: nat, t: Instant)
    requires IsTiling(created, from, to, points) && k < |points| - 1 && points[k] < t < points[k + 1]
    ensures !IsBoundary(created, t)
  {
    forall i | 0 <= i < |points| ensures points[i] != t {
      assert i < k ==> points[i] < points[k];
      assert i > k + 1 ==> points[k + 1] < points[i];
    }
    assert from <= points[k] && points[k + 1] <= to by {
      assert points[k] in points && points[k + 1] in points;
    }
  }

  // ---- Segments ----

  datatype Segment = Segment(dayBucket: Instant, monthBucket: Instant, uplink: int, downlink: int)

  const UPLINK := "user.traffic.uplink"
  const DOWNLINK := "user.traffic.downlink"

  function ConnTags(conn: string): Tags { map["conn_id" := conn] }

  // What flows between two times, in milliseconds.
  type Flow = (int, int) -> int

  ghost function FlowOf(inner: Inner, hashes: set<Hash>): Flow
  {
    (a: int, b: int) => TotalOf(Delta(a, b), inner, hashes)
  }

  /** The growth of one of a connection's counters. */
  ghost function ConnFlow(st: Store, metric: string, conn: string): Flow
  {
    FlowOf(st.inner, Selected(st, Some(metric), ConnTags(conn)))
  }

  // The segment measured between two instants.
  type Cutter = (Instant, Instant) -> Segment

  /** A connection's segment is filed by its end. */
  ghost function ConnCutter(st: Store, conn: string, created: Instant): Cutter
  {
    (a: Instant, b: Instant) =>
      Segment(DayStart(b), MonthlyAnchor(created, b),
              ConnFlow(st, UPLINK, conn)(Millis(a), Millis(b)), ConnFlow(st, DOWNLINK, conn)(Millis(a), Millis(b)))
  }

  predicate IsEmpty(s: Segment) { s.uplink == 0 && s.downlink == 0 }

  /** The segments of the first `n` windows, without the empty ones. */
  function SegmentsOf(cut: Cutter, points: seq<Instant>, n: nat): seq<Segment>
    requires n < |points|
  {
    if n == 0 then [] else
      var s := cut(points[n - 1], points[n]);
      var before := SegmentsOf(cut, points, n - 1);
      if IsEmpty(s) then before else before + [s]
  }

  method MeasureFlow(storage: Storage, metric: string, conn: string, fromMs: int, toMs: int) returns (total: int)
    requires IndexExact(storage.State())
    ensures total == ConnFlow(storage.State(), metric, conn)(fromMs, toMs)
  {
    total := storage.SumSeries(Delta(fromMs, toMs), Some(metric), ConnTags(conn));
  }

  method MeasureSegment(storage: Storage, conn: string, created: Instant, a: Instant, b: Instant) returns (s: Segment)
    requires IndexExact(storage.State())
    ensures s == ConnCutter(storage.State(), conn, created)(a, b)
  {
    var uplink := MeasureFlow(storage, UPLINK, conn, Millis(a), Millis(b));
    var downlink := MeasureFlow(storage, DOWNLINK, conn, Millis(a), Millis(b));
    s := Segment(DayStart(b), MonthlyAnchor(created, b), uplink, downlink);
  }

  method MeasureSegments(storage: Storage, conn: string, created: Instant, points: seq<Instant>, ghost cut: Cutter)
    returns (result: seq<Segment>)
    requires IndexExact(storage.State()) && points != [] && cut == ConnCutter(storage.State(), conn, created)
    ensures result == SegmentsOf(cut, points, |points| - 1)
  {
    result := [];
    var k := 1;
    while k < |points|
      invariant 1 <= k <= |points|
      invariant result == SegmentsOf(cut, points, k - 1)
    {
      var segment := MeasureSegment(storage, conn, created, points[k - 1], points[k]);
      if !IsEmpty(segment) {
        result := result + [segment];
      }
      k := k + 1;
    }
  }

  method ConnectionDeltasBetween(storage: Storage, conn: string, created: Instant, from: Instant, to: Instant)
    returns (result: seq<Segment>, ghost points: seq<Instant>)
    requires IndexExact(storage.State())
    ensures from >= to ==> result == []
    ensures from < to ==>
              && IsTiling(created, from, to, points)
              && result == SegmentsOf(ConnCutter(storage.State(), conn, created), points, |points| - 1)
  {
    if from >= to {
      return [], [];
    }
    var pts := SplitPoints(created, from, to);
    result := MeasureSegments(storage, conn, created, pts, ConnCutter(storage.State(), conn, created));
    points := pts;
  }

  // ---- Buckets ----

  /** The segment is filed under the latest midnight and the latest anniversary
      not after `t`. */
  ghost predicate FiledAt(created: Instant, s: Segment, t: Instant)
  {
    && IsMidnight(s.dayBucket) && s.dayBucket <= t && (forall m :: IsMidnight(m) && m <= t ==> m <= s.dayBucket)
    && IsAnniversary(created, s.monthBucket) && s.monthBucket <= t
    && forall i :: Anniversary(created, i) <= t ==> Anniversary(created, i) <= s.monthBucket
  }

  lemma CutterFiles(st: Store, conn: string, created: Instant, a: Instant, b: Instant)
    ensures FiledAt(created, ConnCutter(st, conn, created)(a, b), b)
  {
    var i := AnchorIsGreatest(created, b);
    DayStartIsMidnight(b);
    forall m | IsMidnight(m) && m <= b ensures m <= DayStart(b) {
      if m > DayStart(b) {
        NextMidnight(DayStart(b), m);
      }
    }
  }

  /** The windows whose segments are kept, in order. */
  lemma {:induction false} SegmentPositions(cut: Cutter, points: seq<Instant>, n: nat) returns (at: seq<nat>)
    requires n < |points|
    ensures |at| == |SegmentsOf(cut, points, n)|
    ensures forall i :: 0 <= i < |at| ==>
              at[i] < n && SegmentsOf(cut, points, n)[i] == cut(points[at[i]], points[at[i] + 1])
    ensures forall i, j :: 0 <= i < j < |at| ==> at[i] < at[j]
    ensures forall k :: 0 <= k < n ==> (k in at <==> !IsEmpty(cut(points[k], points[k + 1])))
  {
    at := [];
    if n > 0 {
      at := SegmentPositions(cut, points, n - 1);
      if !IsEmpty(cut(points[n - 1], points[n])) {
        at := at + [n - 1];
      }
    }
  }

  /** A segment of window k: what flowed in it, filed by its end. */
  ghost predicate OfWindow(st: Store, conn: string, created: Instant, points: seq<Instant>, k: nat, s: Segment)
    requires k + 1 < |points|
  {
    && s.uplink == ConnFlow(st, UPLINK, conn)(Millis(points[k]), Millis(points[k + 1]))
    && s.downlink == ConnFlow(st, DOWNLINK, conn)(Millis(points[k]), Millis(points[k + 1]))
    && FiledAt(created, s, points[k + 1])
  }

  /** `result[i]` is the segment of window `at[i]`; the windows go up. */
  ghost predicate FromWindows(st: Store, conn: string, created: Instant, points: seq<Instant>,
                              result: seq<Segment>, at: seq<nat>)
  {
    && |at| == |result|
    && (forall i :: 0 <= i < |at| ==> at[i] + 1 < |points| && OfWindow(st, conn, created, points, at[i], result[i]))
    && forall i, j :: 0 <= i < j < |at| ==> at[i] < at[j]
  }

  /** What is returned for a connection: one segment for each window in which
      something flowed, in order, filed under the day and the subscription
      month in which the window ends. */
  lemma SegmentsMeaning(st: Store, conn: string, created: Instant, points: seq<Instant>) returns (at: seq<nat>)
    requires |points| >= 2
    ensures FromWindows(st, conn, created, points, SegmentsOf(ConnCutter(st, conn, created), points, |points| - 1), at)
    ensures forall k :: 0 <= k < |points| - 1 ==>
              (k in at <==> ConnFlow(st, UPLINK, conn)(Millis(points[k]), Millis(points[k + 1])) != 0 ||
                            ConnFlow(st, DOWNLINK, conn)(Millis(points[k]), Millis(points[k + 1])) != 0)
  {
    var cut := ConnCutter(st, conn, created);
    at := SegmentPositions(cut, points, |points| - 1);
    var result := SegmentsOf(cut, points, |points| - 1);
    forall i | 0 <= i < |at| ensures OfWindow(st, conn, created, points, at[i], result[i]) {
      CutterFiles(st, conn, created, points[at[i]], points[at[i] + 1]);
    }
  }

  /** A returned segment's day had begun when its window did exactly if the
      window does not end on a midnight. */
  lemma DayBucketIff(st: Store, conn: string, created: Instant, from: Instant, to: Instant, points: seq<Instant>,
                     result: seq<Segment>, at: seq<nat>, i: nat)
    requires IsTiling(created, from, to, points) && FromWindows(st, conn, created, points, result, at) && i < |result|
    ensures result[i].dayBucket <= points[at[i]] <==> !IsMidnight(points[at[i] + 1])
  {
    var k, d := at[i], result[i].dayBucket;
    assert OfWindow(st, conn, created, points, k, result[i]) && points[k] < points[k + 1];
    if points[k] < d < points[k + 1] {
      NoBoundaryInside(created, from, to, points, k, d);
    }
  }

  /** Likewise its subscription month, exactly if the window does not end on an
      anniversary. */
  lemma MonthBucketIff(st: Store, conn: string, created: Instant, from: Instant, to: Instant, points: seq<Instant>,
                       result: seq<Segment>, at: seq<nat>, i: nat)
    requires IsTiling(created, from, to, points) && FromWindows(st, conn, created, points, result, at) && i < |result|
    ensures result[i].monthBucket <= points[at[i]] <==> !IsAnniversary(created, points[at[i] + 1])
  {
    var k, m := at[i], result[i].monthBucket;
    assert OfWindow(st, conn, created, points, k, result[i]) && points[k] < points[k + 1];
    if points[k] < m < points[k + 1] {
      NoBoundaryInside(created, from, to, points, k, m);
    }
  }

  lemma FiledAtMidnight(created: Instant, s: Segment, t: Instant)
    requires FiledAt(created, s, t) && IsMidnight(t)
    ensures s.dayBucket == t
  {
  }

  lemma LastWindow(points: seq<Instant>)
    requires |points| >= 2 && Ascending(points)
    ensures points[0] <= points[|points| - 2] < points[|points| - 1]
  {
  }

  /** The last segment of a range that ends on a midnight measures the day that
      ends and is filed under the one that begins. */
  lemma MidnightSegmentFiledLater(st: Store, conn: string, created: Instant, from: Instant, to: Instant,
                                  points: seq<Instant>, result: seq<Segment>, at: seq<nat>)
    requires IsTiling(created, from, to, points) && FromWindows(st, conn, created, points, result, at)
    requires result != [] && at[|at| - 1] == |points| - 2 && IsMidnight(to)
    ensures from <= points[|points| - 2] < result[|result| - 1].dayBucket == to
  {
    LastWindow(points);
    assert OfWindow(st, conn, created, points, at[|at| - 1], result[|result| - 1]);
    FiledAtMidnight(created, result[|result| - 1], to);
  }

  /** The last segment of a range that ends on an anniversary measures the
      month that ends and is filed under the one that begins. */
  lemma AnniversarySegmentFiledLater(st: Store, conn: string, created: Instant, n: int, from: Instant,
                                     points: seq<Instant>, result: seq<Segment>, at: seq<nat>)
    requires IsTiling(created, from, Anniversary(created, n), points) && FromWindows(st, conn, created, points, result, at)
    requires result != [] && at[|at| - 1] == |points| - 2
    ensures points[|points| - 2] < result[|result| - 1].monthBucket == Anniversary(created, n)
  {
    assert points[|points| - 2] < points[|points| - 1];
    assert OfWindow(st, conn, created, points, |points| - 2, result[|result| - 1]);
  }

  // ---- Never over-counted ----

  function After(b: int, c: int): Point -> bool { (p: Point) => b < p.timestamp <= c }

  lemma NoneAfter(s: Series, p: Point, b: int, c: int)
    requires TimeOrdered(s + [p]) && p.timestamp <= b
    ensures Filter(s, After(b, c)) == []
  {
    forall x | x in s ensures !After(b, c)(x) {
      var i :| 0 <= i < |s| && s[i] == x;
      assert (s + [p])[i].timestamp <= (s + [p])[|s|].timestamp;
    }
    FilterNone(s, After(b, c));
  }

  /** A time-ordered series split at `b`: up to `b`, then after it. */
  lemma {:induction false} RangeSplit(s: Series, a: int, b: int, c: int)
    requires TimeOrdered(s) && a <= b + 1 && b <= c
    ensures Filter(s, InRange(a, c)) == Filter(s, InRange(a, b)) + Filter(s, After(b, c))
  {
    if s != [] {
      var init, p := s[..|s| - 1], s[|s| - 1];
      RangeSplit(init, a, b, c);
      FilterUnfold(s, InRange(a, c));
      FilterUnfold(s, InRange(a, b));
      FilterUnfold(s, After(b, c));
      if a <= p.timestamp <= b {
        NoneAfter(init, p, b, c);
      }
    }
  }

  lemma {:induction false} FilterNonDecreasing(s: Series, p: Point -> bool)
    requires NonDecreasing(s)
    ensures NonDecreasing(Filter(s, p))
  {
    if s != [] {
      var init, x := s[..|s| - 1], s[|s| - 1];
      FilterNonDecreasing(init, p);
      if p(x) {
        var f := Filter(init, p);
        forall i | 0 <= i < |f| ensures f[i].value <= x.value {
          FilterMember(init, p, f[i]);
          var j :| 0 <= j < |init| && init[j] == f[i];
          assert s[j].value <= s[|s| - 1].value;
        }
      } else {
        assert Filter(s, p) == Filter(init, p);
      }
    }
  }

  /** Cutting a counter where it has samples: the step between the samples at
      the cut is counted twice. */
  lemma GrowthSplitAt(l: Series, m: Series, r: Series)
    requires NonDecreasing(l + m + r) && m != []
    ensures Growth(l + m) + Growth(m + r) == Growth(l + m + r) + Growth(m)
  {
    var all := l + m + r;
    var i, j, n := |l|, |l| + |m| - 1, |all| - 1;
    assert m[0] == all[i] && m[|m| - 1] == all[j];
    assert (l + m)[0] == all[0] && (l + m)[|l + m| - 1] == all[j];
    assert (m + r)[0] == all[i] && (m + r)[|m + r| - 1] == all[n];
    assert all[0].value <= all[i].value <= all[j].value <= all[n].value;
  }

  /** The step from one stretch of samples to the next. */
  function Jump(l: Series, r: Series): int
  {
    if l == [] || r == [] then 0 else r[0].value - l[|l| - 1].value
  }

  /** Cutting it between two samples: the step across the cut is lost. */
  lemma GrowthSplitBetween(l: Series, r: Series)
    requires NonDecreasing(l + r)
    ensures 0 <= Jump(l, r) && Growth(l) + Growth(r) + Jump(l, r) == Growth(l + r)
  {
    var all := l + r;
    if l == [] {
      assert all == r;
    } else if r == [] {
      assert all == l;
    } else {
      assert l[|l| - 1] == all[|l| - 1] && r[0] == all[|l|] && l[0] == all[0] && r[|r| - 1] == all[|all| - 1];
    }
  }

  ghost predicate HasSampleAt(s: Series, b: int)
  {
    Filter(s, InRange(b, b)) != []
  }

  /** The samples taken at time `b`, if there are several, all agree. */
  ghost predicate SettledAt(s: Series, b: int)
  {
    Growth(Filter(s, InRange(b, b))) == 0
  }

  ghost predicate IsCounter(s: Series) { TimeOrdered(s) && NonDecreasing(s) }

  /** The step between the samples at the cut, which both windows count. */
  function Doubled(b: int): Series -> int
  {
    (s: Series) => Growth(Filter(s, InRange(b, b)))
  }

  /** The step across a cut without samples, which neither window counts. */
  function Skipped(a: int, b: int, c: int): Series -> int
  {
    (s: Series) => if Filter(s, InRange(b, b)) != [] then 0 else Jump(Filter(s, InRange(a, b)), Filter(s, After(b, c)))
  }

  /** Two closed windows of a counter count what the whole does, and the step
      at the cut twice, but for the step across it. */
  lemma DeltaBalance(s: Series, a: int, b: int, c: int)
    requires IsCounter(s) && a <= b <= c
    ensures Contribution(Delta(a, b), s) + Contribution(Delta(b, c), s) + Skipped(a, b, c)(s) ==
            Contribution(Delta(a, c), s) + Doubled(b)(s)
    ensures 0 <= Skipped(a, b, c)(s) && 0 <= Doubled(b)(s)
  {
    var l, m, r := Filter(s, InRange(a, b - 1)), Filter(s, InRange(b, b)), Filter(s, After(b, c));
    FilterCongruent(s, After(b - 1, b), InRange(b, b));
    RangeSplit(s, a, b - 1, b);
    RangeSplit(s, b, b, c);
    RangeSplit(s, a, b, c);
    assert Filter(s, InRange(a, c)) == l + m + r;
    FilterNonDecreasing(s, InRange(a, c));
    if m == [] {
      assert l + m == l && m + r == r && l + m + r == l + r;
      GrowthSplitBetween(l, r);
    } else {
      GrowthSplitAt(l, m, r);
    }
  }

  /** Closed windows over-count a counter exactly if its samples at the cut
      disagree. */
  lemma DeltaSplit(s: Series, a: int, b: int, c: int)
    requires IsCounter(s) && a <= b <= c
    ensures Contribution(Delta(a, b), s) + Contribution(Delta(b, c), s) <= Contribution(Delta(a, c), s) <==> SettledAt(s, b)
    ensures SettledAt(s, b) && HasSampleAt(s, b) ==>
              Contribution(Delta(a, b), s) + Contribution(Delta(b, c), s) == Contribution(Delta(a, c), s)
  {
    DeltaBalance(s, a, b, c);
  }

  /** A series without duplicate timestamps is settled everywhere. */
  lemma {:induction false} StrictIsSettled(s: Series, b: int)
    requires StrictlyOrdered(s)
    ensures |Filter(s, InRange(b, b))| <= 1 && SettledAt(s, b)
  {
    if s != [] {
      var init, p := s[..|s| - 1], s[|s| - 1];
      assert s == init + [p];
      StrictIsSettled(init, b);
      FilterSnoc(init, p, InRange(b, b));
      if p.timestamp == b {
        forall x | x in init ensures !InRange(b, b)(x) {
          var i :| 0 <= i < |init| && init[i] == x;
          assert s[i].timestamp < s[|s| - 1].timestamp;
        }
        FilterNone(init, InRange(b, b));
      }
    }
  }

  /** Node `n` has one of the selected series. */
  predicate Picked(inner: Inner, hashes: set<Hash>, n: NodeId, h: Hash)
  {
    n in inner && h in hashes && h in inner[n]
  }

  ghost predicate Counters(inner: Inner, hashes: set<Hash>)
  {
    forall n, h {:trigger Picked(inner, hashes, n, h)} :: Picked(inner, hashes, n, h) ==> IsCounter(inner[n][h])
  }

  /** Every selected series of every node is settled at time `b`. */
  ghost predicate AllSettledAt(inner: Inner, hashes: set<Hash>, b: int)
  {
    forall n, h {:trigger Picked(inner, hashes, n, h)} :: Picked(inner, hashes, n, h) ==> SettledAt(inner[n][h], b)
  }

  /** Every selected series of every node has a sample at time `b`. */
  ghost predicate AllSampledAt(inner: Inner, hashes: set<Hash>, b: int)
  {
    forall n, h {:trigger Picked(inner, hashes, n, h)} :: Picked(inner, hashes, n, h) ==> HasSampleAt(inner[n][h], b)
  }

  function PartBy(g: Series -> int, m: map<Hash, Series>): Hash -> int
  {
    (h: Hash) => if h in m then g(m[h]) else 0
  }

  ghost function NodesBy(g: Series -> int, inner: Inner, hashes: set<Hash>): NodeId -> int
  {
    (n: NodeId) => if n in inner then SumOver(hashes, PartBy(g, inner[n])) else 0
  }

  /** A quantity of a series, added up over the selected series of all nodes. */
  ghost function SumBy(g: Series -> int, inner: Inner, hashes: set<Hash>): int
  {
    SumOver(inner.Keys, NodesBy(g, inner, hashes))
  }

  lemma NodeDeltaBalance(m: map<Hash, Series>, hashes: set<Hash>, a: int, b: int, c: int)
    requires a <= b <= c && forall h :: h in hashes && h in m ==> IsCounter(m[h])
    ensures SumOver(hashes, SeriesPart(Delta(a, b), m)) + SumOver(hashes, SeriesPart(Delta(b, c), m))
            + SumOver(hashes, PartBy(Skipped(a, b, c), m))
            == SumOver(hashes, SeriesPart(Delta(a, c), m)) + SumOver(hashes, PartBy(Doubled(b), m))
  {
    var f, g, whole := SeriesPart(Delta(a, b), m), SeriesPart(Delta(b, c), m), SeriesPart(Delta(a, c), m);
    var lost, extra := PartBy(Skipped(a, b, c), m), PartBy(Doubled(b), m);
    forall h | h in hashes ensures f(h) + g(h) + lost(h) == whole(h) + extra(h) {
      if h in m {
        DeltaBalance(m[h], a, b, c);
      }
    }
    SumBalance(hashes, f, g, lost, whole, extra);
  }

  /** The same balance for the total over all selected series of all nodes; so
      two windows exceed the whole exactly when more is counted twice at the
      cut than is lost across it. */
  lemma StoreDeltaSplit(inner: Inner, hashes: set<Hash>, a: int, b: int, c: int)
    requires a <= b <= c && Counters(inner, hashes)
    ensures TotalOf(Delta(a, b), inner, hashes) + TotalOf(Delta(b, c), inner, hashes)
            + SumBy(Skipped(a, b, c), inner, hashes)
            == TotalOf(Delta(a, c), inner, hashes) + SumBy(Doubled(b), inner, hashes)
  {
    var f, g := NodePart(Delta(a, b), inner, hashes), NodePart(Delta(b, c), inner, hashes);
    var whole := NodePart(Delta(a, c), inner, hashes);
    var lost, extra := NodesBy(Skipped(a, b, c), inner, hashes), NodesBy(Doubled(b), inner, hashes);
    forall n | n in inner.Keys ensures f(n) + g(n) + lost(n) == whole(n) + extra(n) {
      forall h | h in hashes && h in inner[n] ensures IsCounter(inner[n][h]) {
        assert Picked(inner, hashes, n, h);
      }
      NodeDeltaBalance(inner[n], hashes, a, b, c);
    }
    SumBalance(inner.Keys, f, g, lost, whole, extra);
  }

  /** Where all samples at the cut agree nothing is counted twice. */
  lemma SettledDoublesNothing(inner: Inner, hashes: set<Hash>, b: int)
    requires AllSettledAt(inner, hashes, b)
    ensures SumBy(Doubled(b), inner, hashes) == 0
  {
    forall n | n in inner.Keys ensures NodesBy(Doubled(b), inner, hashes)(n) == 0 {
      forall h | h in hashes ensures PartBy(Doubled(b), inner[n])(h) == 0 {
        assert h in inner[n] ==> Picked(inner, hashes, n, h);
      }
      SumZero(hashes, PartBy(Doubled(b), inner[n]));
    }
    SumZero(inner.Keys, NodesBy(Doubled(b), inner, hashes));
  }

  /** Where all series have a sample nothing is lost across the cut. */
  lemma SampledSkipsNothing(inner: Inner, hashes: set<Hash>, a: int, b: int, c: int)
    requires AllSampledAt(inner, hashes, b)
    ensures SumBy(Skipped(a, b, c), inner, hashes) == 0
  {
    forall n | n in inner.Keys ensures NodesBy(Skipped(a, b, c), inner, hashes)(n) == 0 {
      forall h | h in hashes ensures PartBy(Skipped(a, b, c), inner[n])(h) == 0 {
        assert h in inner[n] ==> Picked(inner, hashes, n, h);
      }
      SumZero(hashes, PartBy(Skipped(a, b, c), inner[n]));
    }
    SumZero(inner.Keys, NodesBy(Skipped(a, b, c), inner, hashes));
  }

  lemma SkippedNonNegative(inner: Inner, hashes: set<Hash>, a: int, b: int, c: int)
    requires a <= b <= c && Counters(inner, hashes)
    ensures SumBy(Skipped(a, b, c), inner, hashes) >= 0
  {
    forall n | n in inner.Keys ensures NodesBy(Skipped(a, b, c), inner, hashes)(n) >= 0 {
      forall h | h in hashes ensures PartBy(Skipped(a, b, c), inner[n])(h) >= 0 {
        if h in inner[n] {
          assert Picked(inner, hashes, n, h);
          DeltaBalance(inner[n][h], a, b, c);
        }
      }
      SumNonNegative(hashes, PartBy(Skipped(a, b, c), inner[n]));
    }
    SumNonNegative(inner.Keys, NodesBy(Skipped(a, b, c), inner, hashes));
  }

  /** The flows of the first `n` windows, added up. */
  ghost function WindowSum(f: Flow, ms: seq<int>, n: nat): int
    requires n < |ms|
  {
    if n == 0 then 0 else WindowSum(f, ms, n - 1) + f(ms[n - 1], ms[n])
  }

  /** A quantity of each of the first inner cuts, added up. */
  ghost function CutSum(g: int -> int, n: nat): int
  {
    if n <= 1 then 0 else CutSum(g, n - 1) + g(n - 1)
  }

  /** What balances at every cut balances over all of them. */
  lemma {:induction false} WindowsBalance(f: Flow, ms: seq<int>, n: nat, lost: int -> int, extra: int -> int)
    requires 0 < n < |ms|
    requires forall k :: 0 < k < n ==> f(ms[0], ms[k]) + f(ms[k], ms[k + 1]) + lost(k) == f(ms[0], ms[k + 1]) + extra(k)
    ensures WindowSum(f, ms, n) + CutSum(lost, n) == f(ms[0], ms[n]) + CutSum(extra, n)
  {
    if n > 1 {
      WindowsBalance(f, ms, n - 1, lost, extra);
      var k := n - 1;
      assert f(ms[0], ms[k]) + f(ms[k], ms[k + 1]) + lost(k) == f(ms[0], ms[k + 1]) + extra(k);
    } else {
      assert WindowSum(f, ms, 0) == 0;
    }
  }

  function Amount(up: bool, s: Segment): int { if up then s.uplink else s.downlink }

  /** What a list of segments adds up to in one direction. */
  function TotalFor(up: bool, segments: seq<Segment>): int
  {
    if segments == [] then 0 else
      TotalFor(up, segments[..|segments| - 1]) + Amount(up, segments[|segments| - 1])
  }

  lemma TotalSnoc(up: bool, before: seq<Segment>, s: Segment)
    ensures TotalFor(up, before + [s]) == TotalFor(up, before) + Amount(up, s)
  {
    assert (before + [s])[..|before|] == before;
  }

  function AllMillis(points: seq<Instant>): (ms: seq<int>)
    ensures |ms| == |points| && forall k :: 0 <= k < |ms| ==> ms[k] == Millis(points[k])
  {
    seq(|points|, k requires 0 <= k < |points| => Millis(points[k]))
  }

  /** Cut segments carry, in one direction, what flows between their ends. */
  ghost predicate Measures(cut: Cutter, up: bool, f: Flow)
  {
    forall a, b {:trigger cut(a, b)} :: Amount(up, cut(a, b)) == f(Millis(a), Millis(b))
  }

  /** Dropping the empty segments changes no total. */
  lemma {:induction false} SegmentTotals(cut: Cutter, points: seq<Instant>, n: nat, up: bool, f: Flow)
    requires n < |points| && Measures(cut, up, f)
    ensures TotalFor(up, SegmentsOf(cut, points, n)) == WindowSum(f, AllMillis(points), n)
  {
    if n > 0 {
      SegmentTotals(cut, points, n - 1, up, f);
      TotalSnoc(up, SegmentsOf(cut, points, n - 1), cut(points[n - 1], points[n]));
    }
  }

  lemma TotalAsWindows(cut: Cutter, points: seq<Instant>, up: bool, f: Flow)
    requires |points| >= 2 && Measures(cut, up, f)
    ensures var ms := AllMillis(points);
            && TotalFor(up, SegmentsOf(cut, points, |points| - 1)) == WindowSum(f, ms, |points| - 1)
            && Millis(points[0]) == ms[0] && Millis(points[|points| - 1]) == ms[|points| - 1]
  {
    SegmentTotals(cut, points, |points| - 1, up, f);
  }

  ghost predicate SettledAtCuts(inner: Inner, hashes: set<Hash>, ms: seq<int>)
  {
    forall k {:trigger AllSettledAt(inner, hashes, ms[k])} :: 0 < k < |ms| - 1 ==> AllSettledAt(inner, hashes, ms[k])
  }

  ghost predicate SampledAtCuts(inner: Inner, hashes: set<Hash>, ms: seq<int>)
  {
    forall k {:trigger AllSampledAt(inner, hashes, ms[k])} :: 0 < k < |ms| - 1 ==> AllSampledAt(inner, hashes, ms[k])
  }

  ghost predicate Sorted(ms: seq<int>)
  {
    forall i, j :: 0 <= i < j < |ms| ==> ms[i] <= ms[j]
  }

  /** At most the whole, or exactly the whole. */
  ghost predicate Within(total: int, whole: int, exactly: bool)
  {
    total <= whole && (exactly ==> total == whole)
  }

  /** A total is the whole plus what is counted twice, minus what is lost. */
  ghost predicate Balanced(total: int, lost: int, whole: int, extra: int)
  {
    total + lost == whole + extra
  }

  /** Nothing is counted twice, and if `exactly`, nothing is lost. */
  ghost predicate Harmless(lost: int, extra: int, exactly: bool)
  {
    extra == 0 && lost >= 0 && (exactly ==> lost == 0)
  }

  lemma BalancedWithin(total: int, lost: int, whole: int, extra: int, exactly: bool)
    requires Balanced(total, lost, whole, extra) && Harmless(lost, extra, exactly)
    ensures Within(total, whole, exactly)
  {
  }

  /** What is counted twice at the k-th cut, over all selected series. */
  ghost function DoubledAt(inner: Inner, hashes: set<Hash>, ms: seq<int>): int -> int
  {
    (k: int) => if 0 < k < |ms| then SumBy(Doubled(ms[k]), inner, hashes) else 0
  }

  /** What is lost across the k-th cut. */
  ghost function SkippedAt(inner: Inner, hashes: set<Hash>, ms: seq<int>): int -> int
  {
    (k: int) => if 0 < k < |ms| - 1 then SumBy(Skipped(ms[0], ms[k], ms[k + 1]), inner, hashes) else 0
  }

  lemma CutBalance(inner: Inner, hashes: set<Hash>, ms: seq<int>, k: int)
    requires 0 < k < |ms| - 1 && Sorted(ms) && Counters(inner, hashes)
    ensures var f := FlowOf(inner, hashes);
            f(ms[0], ms[k]) + f(ms[k], ms[k + 1]) + SkippedAt(inner, hashes, ms)(k) ==
            f(ms[0], ms[k + 1]) + DoubledAt(inner, hashes, ms)(k)
  {
    StoreDeltaSplit(inner, hashes, ms[0], ms[k], ms[k + 1]);
  }

  lemma FlowBalance(inner: Inner, hashes: set<Hash>, ms: seq<int>, n: nat)
    requires 1 <= n == |ms| - 1 && Sorted(ms) && Counters(inner, hashes)
    ensures Balanced(WindowSum(FlowOf(inner, hashes), ms, n), CutSum(SkippedAt(inner, hashes, ms), n),
                     FlowOf(inner, hashes)(ms[0], ms[n]), CutSum(DoubledAt(inner, hashes, ms), n))
  {
    var f := FlowOf(inner, hashes);
    var lost, extra := SkippedAt(inner, hashes, ms), DoubledAt(inner, hashes, ms);
    forall k | 0 < k < n
      ensures f(ms[0], ms[k]) + f(ms[k], ms[k + 1]) + lost(k) == f(ms[0], ms[k + 1]) + extra(k)
    {
      CutBalance(inner, hashes, ms, k);
    }
    WindowsBalance(f, ms, n, lost, extra);
  }

  lemma CutHarmless(inner: Inner, hashes: set<Hash>, ms: seq<int>, k: int, exactly: bool)
    requires 0 < k < |ms| - 1 && Sorted(ms) && Counters(inner, hashes) && AllSettledAt(inner, hashes, ms[k])
    requires exactly ==> AllSampledAt(inner, hashes, ms[k])
    ensures Harmless(SkippedAt(inner, hashes, ms)(k), DoubledAt(inner, hashes, ms)(k), exactly)
  {
    SettledDoublesNothing(inner, hashes, ms[k]);
    SkippedNonNegative(inner, hashes, ms[0], ms[k], ms[k + 1]);
    if exactly {
      SampledSkipsNothing(inner, hashes, ms[0], ms[k], ms[k + 1]);
    }
  }

  lemma {:induction false} CutsHarmless(inner: Inner, hashes: set<Hash>, ms: seq<int>, n: nat, exactly: bool)
    requires n < |ms| && Sorted(ms) && Counters(inner, hashes) && SettledAtCuts(inner, hashes, ms)
    requires exactly ==> SampledAtCuts(inner, hashes, ms)
    ensures Harmless(CutSum(SkippedAt(inner, hashes, ms), n), CutSum(DoubledAt(inner, hashes, ms), n), exactly)
    decreases n
  {
    if n > 1 {
      CutsHarmless(inner, hashes, ms, n - 1, exactly);
      CutHarmless(inner, hashes, ms, n - 1, exactly);
      CutSumStep(SkippedAt(inner, hashes, ms), DoubledAt(inner, hashes, ms), n, exactly);
    }
  }

  lemma CutSumStep(lost: int -> int, extra: int -> int, n: nat, exactly: bool)
    requires n > 1 && Harmless(CutSum(lost, n - 1), CutSum(extra, n - 1), exactly)
    requires Harmless(lost(n - 1), extra(n - 1), exactly)
    ensures Harmless(CutSum(lost, n), CutSum(extra, n), exactly)
  {
  }

  lemma MillisSorted(points: seq<Instant>)
    requires Ascending(points)
    ensures Sorted(AllMillis(points))
  {
  }

  lemma TotalBalance(cut: Cutter, points: seq<Instant>, up: bool, f: Flow, lost: int, extra: int)
    requires |points| >= 2 && Measures(cut, up, f)
    requires var n, ms := |points| - 1, AllMillis(points);
             Balanced(WindowSum(f, ms, n), lost, f(ms[0], ms[n]), extra)
    ensures var n := |points| - 1;
            Balanced(TotalFor(up, SegmentsOf(cut, points, n)), lost, f(Millis(points[0]), Millis(points[n])), extra)
  {
    TotalAsWindows(cut, points, up, f);
  }

  /** Wherever a range is cut, in either direction the segments add up to the
      growth over the whole range, plus what the cuts count twice, minus what
      they lose: they exceed it exactly when the former is more. */
  lemma CountedExactly(inner: Inner, hashes: set<Hash>, cut: Cutter, points: seq<Instant>, up: bool)
    requires Measures(cut, up, FlowOf(inner, hashes))
    requires |points| >= 2 && Sorted(AllMillis(points)) && Counters(inner, hashes)
    ensures var n := |points| - 1;
            Balanced(TotalFor(up, SegmentsOf(cut, points, n)), CutSum(SkippedAt(inner, hashes, AllMillis(points)), n),
                     FlowOf(inner, hashes)(Millis(points[0]), Millis(points[n])),
                     CutSum(DoubledAt(inner, hashes, AllMillis(points)), n))
  {
    var n, ms := |points| - 1, AllMillis(points);
    FlowBalance(inner, hashes, ms, n);
    TotalBalance(cut, points, up, FlowOf(inner, hashes),
                 CutSum(SkippedAt(inner, hashes, ms), n), CutSum(DoubledAt(inner, hashes, ms), n));
  }

  /** Counters whose samples agree at every cut and, if `exactly`, have one there. */
  ghost predicate Countable(inner: Inner, hashes: set<Hash>, ms: seq<int>, exactly: bool)
  {
    && Counters(inner, hashes) && SettledAtCuts(inner, hashes, ms)
    && (exactly ==> SampledAtCuts(inner, hashes, ms))
  }

  lemma CutsTotal(inner: Inner, hashes: set<Hash>, ms: seq<int>, n: nat, exactly: bool)
    requires n + 1 == |ms| && n >= 1 && Sorted(ms) && Countable(inner, hashes, ms, exactly)
    ensures Harmless(CutSum(SkippedAt(inner, hashes, ms), n), CutSum(DoubledAt(inner, hashes, ms), n), exactly)
  {
    CutsHarmless(inner, hashes, ms, n, exactly);
  }

  /** Traffic is never over-counted: wherever a range is cut, in either
      direction the segments add up to at most the growth over the whole range,
      and to exactly that when every inner point carries a sample. */
  lemma NeverOverCounted(inner: Inner, hashes: set<Hash>, f: Flow, cut: Cutter, points: seq<Instant>,
                         up: bool, exactly: bool)
    requires f == FlowOf(inner, hashes) && Measures(cut, up, f)
    requires |points| >= 2 && Sorted(AllMillis(points)) && Countable(inner, hashes, AllMillis(points), exactly)
    ensures Within(TotalFor(up, SegmentsOf(cut, points, |points| - 1)),
                   f(Millis(points[0]), Millis(points[|points| - 1])), exactly)
  {
    var n, ms := |points| - 1, AllMillis(points);
    CutsTotal(inner, hashes, ms, n, exactly);
    CountedExactly(inner, hashes, cut, points, up);
    BalancedWithin(TotalFor(up, SegmentsOf(cut, points, n)), CutSum(SkippedAt(inner, hashes, ms), n),
                   f(Millis(points[0]), Millis(points[n])), CutSum(DoubledAt(inner, hashes, ms), n), exactly);
  }

  /** A connection's segments meet the premise of NeverOverCounted. */
  lemma ConnCutterMeasures(st: Store, conn: string, created: Instant)
    ensures Measures(ConnCutter(st, conn, created), true, ConnFlow(st, UPLINK, conn))
    ensures Measures(ConnCutter(st, conn, created), false, ConnFlow(st, DOWNLINK, conn))
  {
  }

  /** So the result of ConnectionDeltasBetween is never over-counted. */
  lemma ConnNeverOverCounted(st: Store, conn: string, created: Instant, from: Instant, to: Instant,
                             points: seq<Instant>, up: bool, metric: string, hashes: set<Hash>, exactly: bool)
    requires IsTiling(created, from, to, points) && metric == (if up then UPLINK else DOWNLINK)
    requires hashes == Selected(st, Some(metric), ConnTags(conn))
    requires Countable(st.inner, hashes, AllMillis(points), exactly)
    ensures Within(TotalFor(up, SegmentsOf(ConnCutter(st, conn, created), points, |points| - 1)),
                   ConnFlow(st, metric, conn)(Millis(from), Millis(to)), exactly)
  {
    MillisSorted(points);
    ConnCutterMeasures(st, conn, created);
    NeverOverCounted(st.inner, hashes, ConnFlow(st, metric, conn), ConnCutter(st, conn, created), points, up, exactly);
  }

  function Kept(x: Point, p: Point -> bool): Series { if p(x) then [x] else [] }

  lemma FilterFour(a: Point, b: Point, c: Point, d: Point, p: Point -> bool)
    ensures Filter([a, b, c, d], p) == Kept(a, p) + Kept(b, p) + Kept(c, p) + Kept(d, p)
  {
    assert [a, b, c, d] == [] + [a] + [b] + [c] + [d];
    FilterSnoc([], a, p);
    FilterSnoc([] + [a], b, p);
    FilterSnoc([] + [a] + [b], c, p);
    FilterSnoc([] + [a] + [b] + [c], d, p);
    assert [] + Kept(a, p) == Kept(a, p);
  }

  /** With two samples at the cut the closed windows count their step twice. */
  lemma DuplicateTimestampCountsTwice()
    ensures var s := [Point(0, 0), Point(5, 1), Point(5, 9), Point(9, 10)];
            NonDecreasing(s) && TimeOrdered(s) &&
            Contribution(Delta(0, 5), s) + Contribution(Delta(5, 9), s) > Contribution(Delta(0, 9), s)
  {
    var a, b, c, d := Point(0, 0), Point(5, 1), Point(5, 9), Point(9, 10);
    FilterFour(a, b, c, d, InRange(0, 5));
    FilterFour(a, b, c, d, InRange(5, 9));
    FilterFour(a, b, c, d, InRange(0, 9));
  }

  /** A store reached with increasing times and nondecreasing values is one
      whose traffic is never over-counted, wherever it is cut. */
  lemma OrderlyStoreCounts(key: SeriesKey, limits: Limits, ops: seq<Op>, hashes: set<Hash>, b: int)
    requires forall k :: 0 <= k < |ops| ==> MetricOrder.Orderly(Run(key, limits, ops[..k]), key, ops[k], true)
    ensures Counters(Run(key, limits, ops).inner, hashes) && AllSettledAt(Run(key, limits, ops).inner, hashes, b)
  {
    var inner := Run(key, limits, ops).inner;
    MetricOrder.RunKeepsCounters(key, limits, ops, true);
    forall n, h | n in inner && h in inner[n] ensures IsCounter(inner[n][h]) && SettledAt(inner[n][h], b) {
      MetricOrder.ChainMeaning(inner[n][h], true);
      StrictIsSettled(inner[n][h], b);
    }
  }
}
