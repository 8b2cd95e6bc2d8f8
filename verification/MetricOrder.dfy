/**
 Which stores hold counters: if every inserted point is not before and not
 below the last of its series, all series are time-ordered and nondecreasing,
 whatever is collected, compacted, reset or restored in between.
 */
module MetricOrder {
  import opened Collections
  import opened MetricSeries
  import opened MetricStore

  predicate Follows(p: Point, q: Point, strict: bool)
  {
    (if strict then p.timestamp < q.timestamp else p.timestamp <= q.timestamp) && p.value <= q.value
  }

  ghost predicate Chain(s: Series, strict: bool)
  {
    forall i, j :: 0 <= i < j < |s| ==> Follows(s[i], s[j], strict)
  }

  lemma ChainMeaning(s: Series, strict: bool)
    requires Chain(s, strict)
    ensures TimeOrdered(s) && NonDecreasing(s) && (strict ==> StrictlyOrdered(s))
  {
    forall i, j | 0 <= i < j < |s|
      ensures s[i].timestamp <= s[j].timestamp && s[i].value <= s[j].value
      ensures strict ==> s[i].timestamp < s[j].timestamp
    {
      assert Follows(s[i], s[j], strict);
    }
  }

  // ---- One series ----

  lemma ChainSnoc(s: Series, p: Point, strict: bool)
    requires Chain(s, strict) && (s == [] || Follows(s[|s| - 1], p, strict))
    ensures Chain(s + [p], strict)
  {
    forall i | 0 <= i < |s| ensures Follows(s[i], p, strict) {
      assert i < |s| - 1 ==> Follows(s[i], s[|s| - 1], strict);
    }
  }

  lemma ChainSuffix(s: Series, k: nat, strict: bool)
    requires Chain(s, strict) && k <= |s|
    ensures Chain(s[k..], strict)
  {
  }

  lemma AppendedChain(s: Series, p: Point, limits: Limits, strict: bool)
    requires Chain(s, strict) && (s == [] || Follows(s[|s| - 1], p, strict))
    ensures Chain(Appended(s, p, limits), strict)
  {
    ChainSnoc(s, p, strict);
    AppendedMeaning(s, p, limits);
    ChainSuffix(s + [p], |s + [p]| - |Appended(s, p, limits)|, strict);
  }

  lemma {:induction false} RunEndsChain(s: Series, interval: int, n: nat, strict: bool)
    requires Chain(s, strict) && n <= |s|
    ensures Chain(RunEnds(s, interval, n), strict)
    ensures forall x :: x in RunEnds(s, interval, n) ==> x in s[..n]
  {
    if n > 0 {
      RunEndsChain(s, interval, n - 1, strict);
      var r := RunEnds(s, interval, n - 1);
      assert s[..n] == s[..n - 1] + [s[n - 1]];
      var earlier := s[..n - 1];
      forall i | 0 <= i < |r| ensures Follows(r[i], s[n - 1], strict) {
        assert r[i] in earlier;
        var k :| 0 <= k < |earlier| && earlier[k] == r[i];
        assert Follows(s[k], s[n - 1], strict);
      }
    }
  }

  lemma ChainParts(a: Series, b: Series, strict: bool)
    requires Chain(a + b, strict)
    ensures Chain(a, strict) && Chain(b, strict)
    ensures forall x, y :: x in a && y in b ==> Follows(x, y, strict)
  {
    var s := a + b;
    forall i, j | 0 <= i < j < |a| ensures Follows(a[i], a[j], strict) {
      assert s[i] == a[i] && s[j] == a[j];
    }
    forall i, j | 0 <= i < j < |b| ensures Follows(b[i], b[j], strict) {
      assert s[|a| + i] == b[i] && s[|a| + j] == b[j];
    }
    forall x, y | x in a && y in b ensures Follows(x, y, strict) {
      var i :| 0 <= i < |a| && a[i] == x;
      var j :| 0 <= j < |b| && b[j] == y;
      assert s[i] == x && s[|a| + j] == y;
    }
  }

  lemma ChainConcat(a: Series, b: Series, strict: bool)
    requires Chain(a, strict) && Chain(b, strict)
    requires forall x, y :: x in a && y in b ==> Follows(x, y, strict)
    ensures Chain(a + b, strict)
  {
    var s := a + b;
    forall i, j | 0 <= i < j < |s| ensures Follows(s[i], s[j], strict) {
      if i < |a| <= j {
        assert s[i] in a && s[j] in b;
      }
    }
  }

  lemma CompactOldChain(s: Series, threshold: int, interval: int, strict: bool)
    requires Chain(s, strict)
    ensures Chain(CompactOld(s, threshold, interval), strict)
  {
    var aged, recent := OldPart(s, threshold), RecentPart(s, threshold);
    ChainMeaning(s, strict);
    OrderedSplit(s, threshold);
    ChainParts(aged, recent, strict);
    RunEndsChain(aged, interval, |aged|, strict);
    assert aged[..|aged|] == aged;
    ChainConcat(Compacted(aged, interval), recent, strict);
  }

  lemma DropOldChain(s: Series, minTs: int, strict: bool)
    requires Chain(s, strict)
    ensures Chain(DropOld(s, minTs), strict)
  {
    DropOldSuffix(s, minTs);
    ChainSuffix(s, |s| - |DropOld(s, minTs)|, strict);
  }

  // ---- Whole stores ----

  ghost predicate AllChains(inner: Inner, strict: bool)
  {
    forall n, h :: n in inner && h in inner[n] ==> Chain(inner[n][h], strict)
  }

  lemma PutChain(inner: Inner, n: NodeId, h: Hash, s: Series, strict: bool)
    requires AllChains(inner, strict) && Chain(s, strict)
    ensures AllChains(PutSeries(inner, n, h, s), strict)
  {
  }

  lemma TrimChains(inner: Inner, minTs: int, strict: bool)
    requires AllChains(inner, strict)
    ensures AllChains(TrimInner(inner, minTs), strict)
  {
    var after := TrimInner(inner, minTs);
    forall n, h | n in after && h in after[n] ensures Chain(after[n][h], strict) {
      DropOldChain(inner[n][h], minTs, strict);
    }
  }

  lemma CompactChains(inner: Inner, threshold: int, interval: int, strict: bool)
    requires AllChains(inner, strict)
    ensures AllChains(CompactInner(inner, threshold, interval), strict)
  {
    var after := CompactInner(inner, threshold, interval);
    forall n, h | n in after && h in after[n] ensures Chain(after[n][h], strict) {
      CompactOldChain(inner[n][h], threshold, interval, strict);
    }
  }

  lemma ResetChains(inner: Inner, hashes: set<Hash>, strict: bool)
    requires AllChains(inner, strict)
    ensures AllChains(ResetInner(inner, hashes), strict)
  {
  }

  /** The operation brings no point out of order: an inserted point follows the
      last of its series, a restored series is in order itself. */
  ghost predicate Orderly(st: Store, key: SeriesKey, op: Op, strict: bool)
  {
    match op
    case InsertOp(e) =>
      var s := SeriesAt(st.inner, e.node, key(e.meta));
      s == [] || Follows(s[|s| - 1], e.point, strict)
    case RestoreOp(saved) => Chain(saved.points, strict)
    case _ => true
  }

  lemma StepKeepsChains(st: Store, key: SeriesKey, limits: Limits, op: Op, strict: bool)
    requires AllChains(st.inner, strict) && Orderly(st, key, op, strict)
    ensures AllChains(Step(st, key, limits, op).inner, strict)
  {
    match op
    case InsertOp(e) =>
      var h := key(e.meta);
      AppendedChain(SeriesAt(st.inner, e.node, h), e.point, limits, strict);
      PutChain(st.inner, e.node, h, Appended(SeriesAt(st.inner, e.node, h), e.point, limits), strict);
    case GcOp(minTs) => TrimChains(st.inner, minTs, strict);
    case CompactOp(threshold, interval) => CompactChains(st.inner, threshold, interval, strict);
    case ResetOp(subscription) =>
      ResetChains(st.inner, Indexed(st.tagIndex, "subscription_id", subscription), strict);
    case RestoreOp(saved) => PutChain(st.inner, saved.node, key(saved.meta), saved.points, strict);
  }

  /** Over every run without points out of order all series are time-ordered
      and nondecreasing, strictly ordered if the inserted times increase. */
  lemma {:induction false} RunKeepsCounters(key: SeriesKey, limits: Limits, ops: seq<Op>, strict: bool)
    requires forall k :: 0 <= k < |ops| ==> Orderly(Run(key, limits, ops[..k]), key, ops[k], strict)
    ensures AllChains(Run(key, limits, ops).inner, strict)
  {
    if ops != [] {
      var before := ops[..|ops| - 1];
      forall k | 0 <= k < |before| ensures Orderly(Run(key, limits, before[..k]), key, before[k], strict) {
        assert before[..k] == ops[..k];
      }
      RunKeepsCounters(key, limits, before, strict);
      StepKeepsChains(Run(key, limits, before), key, limits, ops[|ops| - 1], strict);
    }
  }
}
