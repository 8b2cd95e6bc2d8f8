/**
 What the operations do to each series, slot by slot, and what a stored series
 is in terms of the points inserted for it.
 */
module MetricHistory {
  import opened Collections
  import opened Numbers
  import opened MetricSeries
  import opened MetricStore

  ghost predicate Stored(st: Store, n: NodeId, h: Hash) { n in st.inner && h in st.inner[n] }

  /** All slots but one, and all metadata but one hash's, are as before. */
  ghost predicate OthersKept(st: Store, st': Store, n: NodeId, h: Hash)
  {
    && (forall m, x :: m != n || x != h ==>
          (Stored(st', m, x) <==> Stored(st, m, x)) && SeriesAt(st'.inner, m, x) == SeriesAt(st.inner, m, x))
    && (forall x :: x != h ==>
          (x in st'.metadata <==> x in st.metadata) && (x in st.metadata ==> st'.metadata[x] == st.metadata[x]))
  }

  lemma PutMeaning(inner: Inner, n: NodeId, h: Hash, s: Series)
    ensures var after := PutSeries(inner, n, h, s);
            && n in after && h in after[n] && after[n][h] == s
            && forall m, x :: m != n || x != h ==>
                 (m in after && x in after[m] <==> m in inner && x in inner[m])
                 && SeriesAt(after, m, x) == SeriesAt(inner, m, x)
  {
  }

  /** An insertion leaves the slot's series as a suffix of the old one and the
      new point; what is missing exceeds the length limit or is too old, and no
      other slot changes.  The first metadata of a hash stays. */
  lemma InsertMeaning(st: Store, key: SeriesKey, limits: Limits, e: Envelope)
    ensures var st', h := Insert(st, key, limits, e), key(e.meta);
            var all, minTs := SeriesAt(st.inner, e.node, h) + [e.point], e.point.timestamp - limits.retentionSec * 1000;
            && OthersKept(st, st', e.node, h) && Stored(st', e.node, h)
            && h in st'.metadata && st'.metadata[h] == (if h in st.metadata then st.metadata[h] else e.meta)
            && var r := st'.inner[e.node][h];
               && |r| <= |all| && r == all[|all| - |r|..] && |r| <= limits.maxPoints
               && (r != [] ==> r[0].timestamp >= minTs)
               && (forall i :: 0 <= i < |all| - |r| ==> |all| - i > limits.maxPoints || all[i].timestamp < minTs)
               && (limits.maxPoints >= 1 && limits.retentionSec >= 0 ==> r != [] && r[|r| - 1] == e.point)
  {
    var h := key(e.meta);
    var s := SeriesAt(st.inner, e.node, h);
    AppendedMeaning(s, e.point, limits);
    PutMeaning(st.inner, e.node, h, Appended(s, e.point, limits));
  }

  /** Restoring a series writes its slot and its hash's metadata. */
  lemma RestoreMeaning(st: Store, key: SeriesKey, saved: Saved)
    ensures var st', h := Restore(st, key, saved), key(saved.meta);
            && OthersKept(st, st', saved.node, h) && Stored(st', saved.node, h)
            && st'.inner[saved.node][h] == saved.points && h in st'.metadata && st'.metadata[h] == saved.meta
  {
    PutMeaning(st.inner, saved.node, key(saved.meta), saved.points);
  }

  /** A collection drops old points from the front of every series; a slot goes
      exactly if all its points are old, and metadata with its hash's last slot. */
  lemma GcMeaning(st: Store, minTs: int, n: NodeId, h: Hash)
    ensures var st', s := Gc(st, minTs), SeriesAt(st.inner, n, h);
            && (Stored(st', n, h) <==> Stored(st, n, h) && exists i :: 0 <= i < |s| && s[i].timestamp >= minTs)
            && (Stored(st', n, h) ==>
                  var r := st'.inner[n][h];
                  && r != [] && |r| <= |s| && r == s[|s| - |r|..] && r[0].timestamp >= minTs
                  && forall i :: 0 <= i < |s| - |r| ==> s[i].timestamp < minTs)
            && (h in st'.metadata <==> h in st.metadata && exists m :: Stored(st', m, h))
            && (h in st'.metadata ==> st'.metadata[h] == st.metadata[h])
  {
    var st', s := Gc(st, minTs), SeriesAt(st.inner, n, h);
    var r := DropOld(s, minTs);
    DropOldSuffix(s, minTs);
    DropOldStops(s, minTs);
    if Stored(st, n, h) {
      if r != [] {
        assert s[|s| - |r|].timestamp >= minTs;
        assert h in TrimNode(st.inner[n], minTs);
      }
    }
    AliveIsStored(st'.inner);
    if h in st'.metadata {
      var m :| m in st'.inner && h in st'.inner[m];
      assert Stored(st', m, h);
    }
    if h in st.metadata && exists m :: Stored(st', m, h) {
      var m :| Stored(st', m, h);
      assert IsStored(st'.inner, h);
    }
  }

  /** A reset leaves the last point of each series tagged with the subscription
      and touches nothing else. */
  lemma ResetMeaning(st: Store, subscription: string, n: NodeId, h: Hash)
    requires IndexExact(st)
    ensures var st', s := Reset(st, subscription), SeriesAt(st.inner, n, h);
            && (Stored(st', n, h) <==> Stored(st, n, h))
            && st'.metadata == st.metadata && st'.tagIndex == st.tagIndex
            && SeriesAt(st'.inner, n, h) ==
               (if HasTag(st.metadata, h, "subscription_id", subscription) && |s| > 1 then [s[|s| - 1]] else s)
  {
    assert h in Indexed(st.tagIndex, "subscription_id", subscription) <==>
           HasTag(st.metadata, h, "subscription_id", subscription);
  }

  // ---- Compaction, point by point ----

  lemma {:induction false} RunEndPositions(s: Series, interval: int, n: nat) returns (at: seq<nat>)
    requires n <= |s|
    ensures |at| == |RunEnds(s, interval, n)|
    ensures forall i :: 0 <= i < |at| ==> at[i] < n && RunEnds(s, interval, n)[i] == s[at[i]]
    ensures forall i, j :: 0 <= i < j < |at| ==> at[i] < at[j]
    ensures forall k :: 0 <= k < n ==> (k in at <==> RunEnd(s, interval, k))
  {
    at := [];
    if n > 0 {
      at := RunEndPositions(s, interval, n - 1);
      if RunEnd(s, interval, n - 1) {
        at := at + [n - 1];
      }
    }
  }

  /** Position k of a time-ordered series survives: it is recent, or the last
      old one, or the next one lies in another bucket. */
  predicate Survives(s: Series, threshold: int, interval: int, k: nat)
    requires k < |s| && interval != 0
  {
    || s[k].timestamp >= threshold || k == |s| - 1 || s[k + 1].timestamp >= threshold
    || TruncDiv(s[k].timestamp, interval) != TruncDiv(s[k + 1].timestamp, interval)
  }

  lemma OldFront(s: Series, threshold: int)
    requires TimeOrdered(s)
    ensures var a := |OldPart(s, threshold)|;
            && a <= |s| && OldPart(s, threshold) == s[..a] && RecentPart(s, threshold) == s[a..]
            && forall k :: 0 <= k < |s| ==> (s[k].timestamp < threshold <==> k < a)
  {
    var aged, recent := OldPart(s, threshold), RecentPart(s, threshold);
    OrderedSplit(s, threshold);
    FilterMembers(s, Older(threshold));
    FilterMembers(s, AtLeast(threshold));
    forall k | 0 <= k < |s| ensures s[k].timestamp < threshold <==> k < |aged| {
      assert k < |aged| ==> s[k] in aged;
      assert k >= |aged| ==> s[k] in recent;
    }
  }

  lemma FrontSurvives(s: Series, threshold: int, interval: int, k: nat)
    requires TimeOrdered(s) && interval != 0 && k < |OldPart(s, threshold)|
    ensures k < |s| && (RunEnd(OldPart(s, threshold), interval, k) <==> Survives(s, threshold, interval, k))
  {
    var aged := OldPart(s, threshold);
    OldFront(s, threshold);
    assert s[k].timestamp < threshold && aged[k] == s[k];
    if k < |aged| - 1 {
      assert aged[k + 1] == s[k + 1] && s[k + 1].timestamp < threshold;
    } else if k < |s| - 1 {
      assert s[k + 1].timestamp >= threshold;
    }
  }

  /** Positions picked from the front of a sequence, then all from `a` on. */
  lemma FrontAndBack(front: seq<nat>, a: nat, n: nat) returns (at: seq<nat>)
    requires a <= n && (forall i :: 0 <= i < |front| ==> front[i] < a)
    requires forall i, j :: 0 <= i < j < |front| ==> front[i] < front[j]
    ensures |at| == |front| + (n - a)
    ensures forall i :: 0 <= i < |at| ==> at[i] == if i < |front| then front[i] else a + (i - |front|)
    ensures forall i, j :: 0 <= i < j < |at| ==> at[i] < at[j]
    ensures forall k :: 0 <= k < n ==> (k in at <==> k >= a || k in front)
  {
    at := front + seq(n - a, i requires 0 <= i < n - a => a + i);
    forall k | 0 <= k < n ensures k in at <==> k >= a || k in front {
      if k >= a {
        assert at[|front| + (k - a)] == k;
      }
    }
  }

  /** Compaction of a long time-ordered series keeps exactly the recent points
      and the last point of each bucket of old ones, in order. */
  lemma CompactMeaning(s: Series, threshold: int, interval: int) returns (at: seq<nat>)
    requires TimeOrdered(s) && |s| >= 100 && interval != 0
    ensures var c := CompactOld(s, threshold, interval);
            |at| == |c| && forall i :: 0 <= i < |at| ==> at[i] < |s| && c[i] == s[at[i]]
    ensures forall i, j :: 0 <= i < j < |at| ==> at[i] < at[j]
    ensures forall k :: 0 <= k < |s| ==> (k in at <==> Survives(s, threshold, interval, k))
  {
    var aged := OldPart(s, threshold);
    OldFront(s, threshold);
    var front := RunEndPositions(aged, interval, |aged|);
    at := FrontAndBack(front, |aged|, |s|);
    forall k | 0 <= k < |s| ensures k in at <==> Survives(s, threshold, interval, k) {
      if k < |aged| {
        FrontSurvives(s, threshold, interval, k);
      }
    }
  }

  /** In any order, compaction keeps every recent point and invents none; short
      series stay as they are. */
  lemma CompactKeepsRecent(s: Series, threshold: int, interval: int, p: Point)
    ensures |s| < 100 ==> CompactOld(s, threshold, interval) == s
    ensures p in CompactOld(s, threshold, interval) ==> p in s
    ensures p in s && p.timestamp >= threshold ==> p in CompactOld(s, threshold, interval)
  {
    var aged := OldPart(s, threshold);
    FilterMembers(s, Older(threshold));
    FilterMembers(s, AtLeast(threshold));
    var at := RunEndPositions(aged, interval, |aged|);
    if p in Compacted(aged, interval) {
      var i :| 0 <= i < |at| && Compacted(aged, interval)[i] == p;
      assert aged[at[i]] in aged;
    }
  }

  // ---- What queries read ----

  /** Position k has a sample in the closed range. */
  predicate Within(s: Series, from: int, to: int, k: nat)
    requires k < |s|
  {
    from <= s[k].timestamp <= to
  }

  lemma FirstAndLast(s: Series, from: int, to: int) returns (i: nat, j: nat)
    requires Filter(s, InRange(from, to)) != []
    ensures i <= j < |s| && Within(s, from, to, i) && Within(s, from, to, j)
    ensures forall k :: 0 <= k < |s| && Within(s, from, to, k) ==> i <= k <= j
    ensures var r := Filter(s, InRange(from, to)); r[0] == s[i] && r[|r| - 1] == s[j]
  {
    var at := FilterPositions(s, InRange(from, to));
    i, j := at[0], at[|at| - 1];
    assert i in at && j in at;
    forall k | 0 <= k < |s| && Within(s, from, to, k) ensures i <= k <= j {
      assert InRange(from, to)(s[k]);
      var x :| 0 <= x < |at| && at[x] == k;
    }
  }

  /** A range query reads the first and the last sample in the closed range:
      the growth between them, never negative, and nothing without a sample. */
  lemma DeltaReads(s: Series, from: int, to: int) returns (i: nat, j: nat)
    ensures var d := Contribution(Delta(from, to), s);
            if forall k :: 0 <= k < |s| ==> !Within(s, from, to, k) then d == 0
            else && i <= j < |s| && Within(s, from, to, i) && Within(s, from, to, j)
                 && (forall k :: 0 <= k < |s| && Within(s, from, to, k) ==> i <= k <= j)
                 && d == if s[j].value >= s[i].value then s[j].value - s[i].value else 0
  {
    i, j := 0, 0;
    if Filter(s, InRange(from, to)) != [] {
      i, j := FirstAndLast(s, from, to);
    } else {
      forall k | 0 <= k < |s| ensures !Within(s, from, to, k) {
        FilterMember(s, InRange(from, to), s[k]);
      }
    }
  }

  // ---- Over runs ----

  /** The points inserted for a slot, in order. */
  function Inserted(key: SeriesKey, ops: seq<Op>, n: NodeId, h: Hash): Series
  {
    if ops == [] then [] else
      var before, op := Inserted(key, ops[..|ops| - 1], n, h), ops[|ops| - 1];
      if op.InsertOp? && op.e.node == n && key(op.e.meta) == h then before + [op.e.point] else before
  }

  ghost predicate OnlyInserts(ops: seq<Op>) { forall k :: 0 <= k < |ops| ==> ops[k].InsertOp? }

  /** `r` is the end of `s`. */
  ghost predicate IsEnd(r: Series, s: Series) { |r| <= |s| && r == s[|s| - |r|..] }

  /** In every run of insertions a stored series is the end of the points
      inserted for it, in their order, and a slot is stored once inserted for. */
  lemma {:induction false} StoredIsInserted(key: SeriesKey, limits: Limits, ops: seq<Op>, n: NodeId, h: Hash)
    requires OnlyInserts(ops)
    ensures var st, all := Run(key, limits, ops), Inserted(key, ops, n, h);
            IsEnd(SeriesAt(st.inner, n, h), all) && (Stored(st, n, h) <==> all != [])
  {
    if ops != [] {
      var before, op := ops[..|ops| - 1], ops[|ops| - 1];
      StoredIsInserted(key, limits, before, n, h);
      assert op == ops[|ops| - 1] && op.InsertOp?;
      InsertKeepsPast(Run(key, limits, before), key, limits, op.e, n, h, Inserted(key, before, n, h));
    }
  }

  lemma InsertKeepsPast(st: Store, key: SeriesKey, limits: Limits, e: Envelope, n: NodeId, h: Hash, past: Series)
    requires IsEnd(SeriesAt(st.inner, n, h), past) && (Stored(st, n, h) <==> past != [])
    ensures var st', all := Insert(st, key, limits, e), if e.node == n && key(e.meta) == h then past + [e.point] else past;
            IsEnd(SeriesAt(st'.inner, n, h), all) && (Stored(st', n, h) <==> all != [])
  {
    var s := SeriesAt(st.inner, n, h);
    InsertMeaning(st, key, limits, e);
    if e.node == n && key(e.meta) == h {
      EndSnoc(s, past, e.point);
      EndTrans(SeriesAt(Insert(st, key, limits, e).inner, n, h), s + [e.point], past + [e.point]);
    }
  }

  lemma EndSnoc(r: Series, s: Series, p: Point)
    requires IsEnd(r, s)
    ensures IsEnd(r + [p], s + [p])
  {
  }

  lemma EndTrans(a: Series, b: Series, c: Series)
    requires IsEnd(a, b) && IsEnd(b, c)
    ensures IsEnd(a, c)
  {
  }

  lemma {:induction false} DropOldSkip(a: Series, b: Series, minTs: int)
    requires forall i :: 0 <= i < |a| ==> a[i].timestamp < minTs
    ensures DropOld(a + b, minTs) == DropOld(b, minTs)
    decreases |a|
  {
    if a == [] {
      assert a + b == b;
    } else {
      assert (a + b)[1..] == a[1..] + b;
      DropOldSkip(a[1..], b, minTs);
    }
  }

  /** The points within the length limit, from the first one young enough. */
  function Trimmed(all: Series, limits: Limits, minTs: int): Series
  {
    DropOld(KeepLast(all, limits.maxPoints), minTs)
  }

  function Cutoff(p: Point, limits: Limits): int { p.timestamp - limits.retentionSec * 1000 }

  lemma TrimRest(all: Series, p: Point, n: nat, s: Series, later: int)
    requires IsEnd(s, KeepLast(all, n)) && |s| < n
    requires var kept := KeepLast(all, n); forall i :: 0 <= i < |kept| - |s| ==> kept[i].timestamp < later
    ensures DropOld(KeepLast(all + [p], n), later) == DropOld(s + [p], later)
  {
    var kept, both := KeepLast(all, n), KeepLast(all + [p], n);
    var skipped := both[..|both| - |s| - 1];
    assert both == skipped + (s + [p]);
    var off := |kept| + 1 - |both|;
    forall i | 0 <= i < |skipped| ensures skipped[i].timestamp < later {
      assert skipped[i] == kept[i + off];
    }
    DropOldSkip(skipped, s + [p], later);
  }

  /** Trimming at each insertion is trimming once at the end. */
  lemma TrimOnce(all: Series, p: Point, limits: Limits, minTs: int)
    requires minTs <= Cutoff(p, limits)
    ensures Appended(Trimmed(all, limits, minTs), p, limits) == Trimmed(all + [p], limits, Cutoff(p, limits))
  {
    var n := limits.maxPoints;
    var kept := KeepLast(all, n);
    var s := DropOld(kept, minTs);
    DropOldSuffix(kept, minTs);
    if |s| == n {
      assert s == kept;
      assert KeepLast(s + [p], n) == KeepLast(all + [p], n);
    } else {
      assert KeepLast(s + [p], n) == s + [p];
      TrimRest(all, p, n, s, Cutoff(p, limits));
    }
  }

  /** With times that never run backwards, a series holds exactly the inserted
      points within the length limit, from the first that was young enough at
      the last insertion. */
  lemma {:induction false} StoredIsWindow(key: SeriesKey, limits: Limits, ops: seq<Op>, n: NodeId, h: Hash)
    requires OnlyInserts(ops) && TimeOrdered(Inserted(key, ops, n, h)) && Inserted(key, ops, n, h) != []
    ensures var all := Inserted(key, ops, n, h);
            SeriesAt(Run(key, limits, ops).inner, n, h) == Trimmed(all, limits, Cutoff(all[|all| - 1], limits))
  {
    var before, op := ops[..|ops| - 1], ops[|ops| - 1];
    var earlier, s := Inserted(key, before, n, h), SeriesAt(Run(key, limits, before).inner, n, h);
    assert op == ops[|ops| - 1] && op.InsertOp?;
    InsertedAt(Run(key, limits, before), key, limits, op.e, n, h);
    OrderedBefore(key, ops, n, h);
    if earlier == [] {
      StoredIsInserted(key, limits, before, n, h);
      TrimOnce([], op.e.point, limits, Cutoff(op.e.point, limits));
    } else {
      StoredIsWindow(key, limits, before, n, h);
      if op.e.node == n && key(op.e.meta) == h {
        TrimOnce(earlier, op.e.point, limits, Cutoff(earlier[|earlier| - 1], limits));
      }
    }
  }

  lemma InsertedAt(st: Store, key: SeriesKey, limits: Limits, e: Envelope, n: NodeId, h: Hash)
    ensures SeriesAt(Insert(st, key, limits, e).inner, n, h) ==
            (if e.node == n && key(e.meta) == h then Appended(SeriesAt(st.inner, n, h), e.point, limits)
             else SeriesAt(st.inner, n, h))
  {
    PutMeaning(st.inner, e.node, key(e.meta), Appended(SeriesAt(st.inner, e.node, key(e.meta)), e.point, limits));
  }

  lemma OrderedBefore(key: SeriesKey, ops: seq<Op>, n: NodeId, h: Hash)
    requires ops != [] && TimeOrdered(Inserted(key, ops, n, h))
    ensures var earlier, all := Inserted(key, ops[..|ops| - 1], n, h), Inserted(key, ops, n, h);
            && TimeOrdered(earlier)
            && (earlier != [] ==> earlier[|earlier| - 1].timestamp <= all[|all| - 1].timestamp)
  {
    var earlier, all := Inserted(key, ops[..|ops| - 1], n, h), Inserted(key, ops, n, h);
    forall i, j | 0 <= i < j < |earlier| ensures earlier[i].timestamp <= earlier[j].timestamp {
      assert all[i] == earlier[i] && all[j] == earlier[j];
    }
    assert earlier != [] ==> all[|earlier| - 1] == earlier[|earlier| - 1];
  }

  // ---- The latest value ----

  /** The newest point of a slot after an operation. */
  function Newer(key: SeriesKey, op: Op, n: NodeId, h: Hash, before: Option<Point>): Option<Point>
  {
    match op
    case InsertOp(e) => if e.node == n && key(e.meta) == h then Some(e.point) else before
    case RestoreOp(saved) =>
      if saved.node != n || key(saved.meta) != h then before
      else if saved.points == [] then None else Some(saved.points[|saved.points| - 1])
    case _ => before
  }

  /** The last point inserted or restored for a slot. */
  function Newest(key: SeriesKey, ops: seq<Op>, n: NodeId, h: Hash): Option<Point>
  {
    if ops == [] then None else Newer(key, ops[|ops| - 1], n, h, Newest(key, ops[..|ops| - 1], n, h))
  }

  ghost predicate EndsWith(s: Series, p: Option<Point>) { s != [] ==> p == Some(s[|s| - 1]) }

  /** No compaction meets an old last point behind a recent one. */
  ghost predicate LastSafeRun(key: SeriesKey, limits: Limits, ops: seq<Op>, n: NodeId, h: Hash)
  {
    forall k :: 0 <= k < |ops| && ops[k].CompactOp? ==>
      var s := SeriesAt(Run(key, limits, ops[..k]).inner, n, h);
      s == [] || LastSafe(s, ops[k].threshold)
  }

  lemma InsertKeepsEnd(st: Store, key: SeriesKey, limits: Limits, e: Envelope, n: NodeId, h: Hash, before: Option<Point>)
    requires limits.maxPoints >= 1 && limits.retentionSec >= 0 && EndsWith(SeriesAt(st.inner, n, h), before)
    ensures EndsWith(SeriesAt(Insert(st, key, limits, e).inner, n, h),
                     if e.node == n && key(e.meta) == h then Some(e.point) else before)
  {
    InsertedAt(st, key, limits, e, n, h);
    AppendedMeaning(SeriesAt(st.inner, n, h), e.point, limits);
  }

  lemma GcKeepsEnd(st: Store, minTs: int, n: NodeId, h: Hash, before: Option<Point>)
    requires EndsWith(SeriesAt(st.inner, n, h), before)
    ensures EndsWith(SeriesAt(Gc(st, minTs).inner, n, h), before)
  {
    GcMeaning(st, minTs, n, h);
  }

  lemma CompactKeepsEnd(st: Store, threshold: int, interval: int, n: NodeId, h: Hash, before: Option<Point>)
    requires var s := SeriesAt(st.inner, n, h); EndsWith(s, before) && (s == [] || LastSafe(s, threshold))
    ensures EndsWith(SeriesAt(Compact(st, threshold, interval).inner, n, h), before)
  {
    if SeriesAt(st.inner, n, h) != [] {
      CompactOldKeepsLastIff(SeriesAt(st.inner, n, h), threshold, interval);
    }
  }

  lemma ResetKeepsEnd(st: Store, subscription: string, n: NodeId, h: Hash, before: Option<Point>)
    requires EndsWith(SeriesAt(st.inner, n, h), before)
    ensures EndsWith(SeriesAt(Reset(st, subscription).inner, n, h), before)
  {
  }

  lemma RestoreKeepsEnd(st: Store, key: SeriesKey, saved: Saved, n: NodeId, h: Hash, before: Option<Point>)
    requires EndsWith(SeriesAt(st.inner, n, h), before)
    ensures var s := SeriesAt(Restore(st, key, saved).inner, n, h);
            if saved.node == n && key(saved.meta) == h then s == saved.points else EndsWith(s, before)
  {
    RestoreMeaning(st, key, saved);
  }

  lemma StepKeepsEnd(st: Store, key: SeriesKey, limits: Limits, op: Op, n: NodeId, h: Hash, newest: Option<Point>)
    requires limits.maxPoints >= 1 && limits.retentionSec >= 0 && EndsWith(SeriesAt(st.inner, n, h), newest)
    requires op.CompactOp? ==>
               SeriesAt(st.inner, n, h) == [] || LastSafe(SeriesAt(st.inner, n, h), op.threshold)
    ensures EndsWith(SeriesAt(Step(st, key, limits, op).inner, n, h), Newer(key, op, n, h, newest))
  {
    match op
    case InsertOp(e) => InsertKeepsEnd(st, key, limits, e, n, h, newest);
    case GcOp(minTs) => GcKeepsEnd(st, minTs, n, h, newest);
    case CompactOp(threshold, interval) => CompactKeepsEnd(st, threshold, interval, n, h, newest);
    case ResetOp(subscription) => ResetKeepsEnd(st, subscription, n, h, newest);
    case RestoreOp(saved) => RestoreKeepsEnd(st, key, saved, n, h, newest);
  }

  /** Over every run the last point of a stored series, which the latest-value
      query reads, is the last one inserted or restored for it, unless a
      compaction met an old last point behind a recent one. */
  lemma {:induction false} LatestIsNewest(key: SeriesKey, limits: Limits, ops: seq<Op>, n: NodeId, h: Hash)
    requires limits.maxPoints >= 1 && limits.retentionSec >= 0 && LastSafeRun(key, limits, ops, n, h)
    ensures var s, p := SeriesAt(Run(key, limits, ops).inner, n, h), Newest(key, ops, n, h);
            && EndsWith(s, p)
            && Contribution(Latest, s) == if s == [] then 0 else if p.Some? then p.value.value else 0
  {
    if ops != [] {
      var before, op := ops[..|ops| - 1], ops[|ops| - 1];
      LastSafeBefore(key, limits, ops, n, h);
      LatestIsNewest(key, limits, before, n, h);
      assert before == ops[..|ops| - 1] && op == ops[|before|];
      StepKeepsEnd(Run(key, limits, before), key, limits, op, n, h, Newest(key, before, n, h));
    }
  }

  /** What keeps the newest point in the store: nothing collected since was as
      young as it. */
  ghost predicate Unexpired(key: SeriesKey, ops: seq<Op>, n: NodeId, h: Hash)
  {
    ops != [] ==>
      var before, op := ops[..|ops| - 1], ops[|ops| - 1];
      match op
      case InsertOp(e) => (e.node == n && key(e.meta) == h) || Unexpired(key, before, n, h)
      case RestoreOp(saved) => (saved.node == n && key(saved.meta) == h) || Unexpired(key, before, n, h)
      case GcOp(minTs) =>
        && Unexpired(key, before, n, h)
        && (Newest(key, before, n, h).Some? ==> Newest(key, before, n, h).value.timestamp >= minTs)
      case _ => Unexpired(key, before, n, h)
  }

  lemma StepKeepsStored(st: Store, key: SeriesKey, limits: Limits, op: Op, n: NodeId, h: Hash, p: Point)
    requires SeriesAt(st.inner, n, h) != [] && EndsWith(SeriesAt(st.inner, n, h), Some(p))
    requires limits.maxPoints >= 1 && limits.retentionSec >= 0
    requires op.GcOp? ==> p.timestamp >= op.minTs
    requires op.RestoreOp? ==> op.saved.node != n || key(op.saved.meta) != h
    ensures SeriesAt(Step(st, key, limits, op).inner, n, h) != []
  {
    match op
    case InsertOp(e) => InsertMeaning(st, key, limits, e);
    case GcOp(minTs) =>
      var s := SeriesAt(st.inner, n, h);
      GcMeaning(st, minTs, n, h);
      assert s[|s| - 1].timestamp >= minTs;
    case CompactOp(threshold, interval) => CompactOldKeepsLastIff(SeriesAt(st.inner, n, h), threshold, interval);
    case ResetOp(subscription) =>
    case RestoreOp(saved) => RestoreMeaning(st, key, saved);
  }

  /** And the newest point is there to be read until it expires. */
  lemma {:induction false} NewestIsStored(key: SeriesKey, limits: Limits, ops: seq<Op>, n: NodeId, h: Hash)
    requires limits.maxPoints >= 1 && limits.retentionSec >= 0 && LastSafeRun(key, limits, ops, n, h)
    requires Unexpired(key, ops, n, h) && Newest(key, ops, n, h).Some?
    ensures var s := SeriesAt(Run(key, limits, ops).inner, n, h);
            s != [] && s[|s| - 1] == Newest(key, ops, n, h).value
  {
    LatestIsNewest(key, limits, ops, n, h);
    var before, op := ops[..|ops| - 1], ops[|ops| - 1];
    if op.InsertOp? && op.e.node == n && key(op.e.meta) == h {
      InsertMeaning(Run(key, limits, before), key, limits, op.e);
    } else if op.RestoreOp? && op.saved.node == n && key(op.saved.meta) == h {
      RestoreMeaning(Run(key, limits, before), key, op.saved);
    } else {
      LastSafeBefore(key, limits, ops, n, h);
      NewestIsStored(key, limits, before, n, h);
      StepKeepsStored(Run(key, limits, before), key, limits, op, n, h, Newest(key, before, n, h).value);
    }
  }

  lemma LastSafeBefore(key: SeriesKey, limits: Limits, ops: seq<Op>, n: NodeId, h: Hash)
    requires ops != [] && LastSafeRun(key, limits, ops, n, h)
    ensures LastSafeRun(key, limits, ops[..|ops| - 1], n, h)
  {
    var before := ops[..|ops| - 1];
    forall k | 0 <= k < |before| && before[k].CompactOp?
      ensures var s := SeriesAt(Run(key, limits, before[..k]).inner, n, h); s == [] || LastSafe(s, before[k].threshold)
    {
      assert before[..k] == ops[..k] && before[k] == ops[k];
    }
  }
}
