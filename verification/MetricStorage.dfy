/** The metric storage as an object, its queries, and what queries survive. */
module MetricStorage {
  import opened Collections
  import opened Numbers
  import opened MetricSeries
  import opened MetricStore

  const HEARTBEAT := "sys.heartbeat"

  // ---- What the queries mean ----

  predicate NameIs(meta: Meta, metric: Option<string>)
  {
    metric.Some? ==> meta.name == metric.value
  }

  predicate Carries(meta: Meta, tags: Tags)
  {
    forall k :: k in tags ==> k in meta.tags && meta.tags[k] == tags[k]
  }

  /** A full scan of the metadata. */
  function Scan(metadata: Metadata, metric: Option<string>, tags: Tags): set<Hash>
  {
    set h | h in metadata && NameIs(metadata[h], metric) && Carries(metadata[h], tags)
  }

  /** What `series_for` selects: an empty tag filter selects nothing. */
  function Selected(st: Store, metric: Option<string>, tags: Tags): set<Hash>
  {
    if tags == map[] then {} else Scan(st.metadata, metric, tags)
  }

  function SeriesPart(q: Query, m: map<Hash, Series>): Hash -> int
  {
    (h: Hash) => if h in m then Contribution(q, m[h]) else 0
  }

  ghost function NodePart(q: Query, inner: Inner, hashes: set<Hash>): NodeId -> int
  {
    (n: NodeId) => if n in inner then SumOver(hashes, SeriesPart(q, inner[n])) else 0
  }

  /** The query's total over the given series of all nodes. */
  ghost function TotalOf(q: Query, inner: Inner, hashes: set<Hash>): int
  {
    SumOver(inner.Keys, NodePart(q, inner, hashes))
  }

  predicate IsHeartbeat(st: Store, n: NodeId, h: Hash)
  {
    n in st.inner && h in st.inner[n] && st.inner[n][h] != []
    && h in st.metadata && st.metadata[h].name == HEARTBEAT
  }

  /** The last time stamps of the node's heartbeat series. */
  function HeartbeatTimes(st: Store, n: NodeId): set<int>
  {
    set h | h in NodeSeries(st.inner, n) && IsHeartbeat(st, n, h) ::
      var s := SeriesAt(st.inner, n, h); if s == [] then 0 else s[|s| - 1].timestamp
  }

  ghost predicate IsLatest(times: set<int>, r: Option<int>)
  {
    match r
    case None => times == {}
    case Some(t) => t in times && forall x :: x in times ==> x <= t
  }

  // ---- Tag by tag ----

  lemma TakeOne(tags: Tags, todo: set<string>, k: string)
    requires k in todo && todo <= tags.Keys
    ensures k !in tags - todo && tags - (todo - {k}) == (tags - todo)[k := tags[k]]
  {
  }

  function Carriers(metadata: Metadata, tags: Tags): set<Hash>
  {
    set h | h in metadata && Carries(metadata[h], tags)
  }

  /** One more tag intersects the carriers with its index entry. */
  lemma CarriersSnoc(st: Store, tags: Tags, k: string, v: string)
    requires IndexExact(st) && k !in tags
    ensures Carriers(st.metadata, tags[k := v]) == Carriers(st.metadata, tags) * Indexed(st.tagIndex, k, v)
    ensures tags == map[] ==> Carriers(st.metadata, tags[k := v]) == Indexed(st.tagIndex, k, v)
  {
    forall h | h in st.metadata
      ensures Carries(st.metadata[h], tags[k := v]) <==> Carries(st.metadata[h], tags) && h in Indexed(st.tagIndex, k, v)
    {
      assert h in Indexed(st.tagIndex, k, v) <==> HasTag(st.metadata, h, k, v);
    }
  }

  // ---- The object ----

  class Storage {
    var inner: Inner
    var metadata: Metadata
    var tagIndex: TagIndex
    const limits: Limits
    const key: SeriesKey

    constructor (limits: Limits, key: SeriesKey)
      ensures State() == EMPTY && this.limits == limits && this.key == key && Inv(State(), key)
    {
      inner, metadata, tagIndex := map[], map[], map[];
      this.limits, this.key := limits, key;
    }

    function State(): Store
      reads this
    {
      Store(inner, metadata, tagIndex)
    }

    /** File the hash under each tag in turn. */
    method FileTags(tags: Tags, h: Hash)
      modifies this`tagIndex
      ensures tagIndex == IndexTags(old(tagIndex), tags, h)
    {
      var todo := tags.Keys;
      assert IndexTags(tagIndex, tags - todo, h) == tagIndex;
      while todo != {}
        invariant todo <= tags.Keys
        invariant tagIndex == IndexTags(old(tagIndex), tags - todo, h)
        decreases todo
      {
        var k :| k in todo;
        TakeOne(tags, todo, k);
        IndexTagsSnoc(old(tagIndex), tags - todo, k, tags[k], h);
        tagIndex := IndexTag(tagIndex, k, tags[k], h);
        todo := todo - {k};
      }
      assert tags - todo == tags;
    }

    method InsertEnvelope(e: Envelope)
      requires Inv(State(), key)
      modifies this
      ensures State() == Insert(old(State()), key, limits, e) && Inv(State(), key)
    {
      InsertKeepsInv(State(), key, limits, e);
      var h := key(e.meta);
      if h !in metadata {
        FileTags(e.meta.tags, h);
        metadata := metadata[h := e.meta];
      }
      var series := TrimmedAppend(SeriesAt(inner, e.node, h), e.point);
      inner := PutSeries(inner, e.node, h, series);
    }

    /** Push, then pop from the front while too long and while too old. */
    method TrimmedAppend(s: Series, p: Point) returns (series: Series)
      ensures series == Appended(s, p, limits)
    {
      series := s + [p];
      while |series| > limits.maxPoints
        invariant KeepLast(series, limits.maxPoints) == KeepLast(s + [p], limits.maxPoints)
      {
        series := series[1..];
      }
      var minTs := p.timestamp - limits.retentionSec * 1000;
      while series != [] && series[0].timestamp < minTs
        invariant DropOld(series, minTs) == Appended(s, p, limits)
        decreases |series|
      {
        series := series[1..];
      }
    }

    /** Intersect the index entries of the tags, then filter by name. */
    method SeriesFor(metric: Option<string>, tags: Tags) returns (hashes: set<Hash>)
      requires IndexExact(State())
      ensures hashes == Selected(State(), metric, tags)
    {
      var carriers := Intersect(tags);
      hashes := if carriers.Some? then carriers.value else {};
      if metric.Some? {
        hashes := set h | h in hashes && h in metadata && metadata[h].name == metric.value;
      }
    }

    method Intersect(tags: Tags) returns (result: Option<set<Hash>>)
      requires IndexExact(State())
      ensures result == if tags == map[] then None else Some(Carriers(metadata, tags))
    {
      result := None;
      var todo := tags.Keys;
      while todo != {}
        invariant todo <= tags.Keys
        invariant result == if todo == tags.Keys then None else Some(Carriers(metadata, tags - todo))
        decreases todo
      {
        var k :| k in todo;
        var current := Indexed(tagIndex, k, tags[k]);
        TakeOne(tags, todo, k);
        CarriersSnoc(State(), tags - todo, k, tags[k]);
        result := Some(if result.None? then current else result.value * current);
        todo := todo - {k};
      }
      assert tags - todo == tags;
    }

    method SumSeries(q: Query, metric: Option<string>, tags: Tags) returns (total: int)
      requires IndexExact(State())
      ensures total == TotalOf(q, inner, Selected(State(), metric, tags))
    {
      var hashes := SeriesFor(metric, tags);
      total := SumHashes(q, hashes);
    }

    /** The accumulation loop of `latest_sum`, `delta_sum` and `sum_metric`. */
    method SumHashes(q: Query, hashes: set<Hash>) returns (total: int)
      ensures total == TotalOf(q, inner, hashes)
    {
      total := 0;
      ghost var f := NodePart(q, inner, hashes);
      var nodes := inner.Keys;
      while nodes != {}
        invariant nodes <= inner.Keys
        invariant SumOver(inner.Keys, f) == total + SumOver(nodes, f)
        decreases nodes
      {
        var n :| n in nodes;
        var part := SumNode(q, n, hashes);
        total := total + part;
        SumRemove(nodes, f, n);
        nodes := nodes - {n};
      }
    }

    method SumNode(q: Query, n: NodeId, hashes: set<Hash>) returns (total: int)
      requires n in inner
      ensures total == NodePart(q, inner, hashes)(n)
    {
      total := 0;
      var m := inner[n];
      var todo := hashes;
      while todo != {}
        invariant todo <= hashes
        invariant SumOver(hashes, SeriesPart(q, m)) == total + SumOver(todo, SeriesPart(q, m))
        decreases todo
      {
        var h :| h in todo;
        if h in m {
          total := total + Contribution(q, m[h]);
        }
        SumRemove(todo, SeriesPart(q, m), h);
        todo := todo - {h};
      }
    }

    /** The latest over all heartbeat series of the node, not the first found. */
    method GetLastHeartbeat(n: NodeId) returns (latest: Option<int>)
      ensures IsLatest(HeartbeatTimes(State(), n), latest)
    {
      latest := None;
      if n !in inner {
        return;
      }
      var todo := inner[n].Keys;
      while todo != {}
        invariant todo <= inner[n].Keys
        invariant latest.Some? ==> latest.value in HeartbeatTimes(State(), n)
        invariant forall h :: h in inner[n] && h !in todo && IsHeartbeat(State(), n, h) ==>
                    latest.Some? && inner[n][h][|inner[n][h]| - 1].timestamp <= latest.value
        decreases todo
      {
        var h :| h in todo;
        if h in metadata && metadata[h].name == HEARTBEAT && inner[n][h] != [] {
          var ts := inner[n][h][|inner[n][h]| - 1].timestamp;
          assert IsHeartbeat(State(), n, h) && h in NodeSeries(inner, n);
          assert ts in HeartbeatTimes(State(), n);
          latest := Some(if latest.None? then ts else Max(latest.value, ts));
        }
        todo := todo - {h};
      }
    }

    /** Pop from the front of each of the subscription's series until one point is left. */
    method ResetSubscriptionSeries(subscription: string)
      modifies this`inner
      ensures State() == Reset(old(State()), subscription)
    {
      var hashes := Indexed(tagIndex, "subscription_id", subscription);
      var r := inner;
      var todo := inner.Keys;
      while todo != {}
        invariant todo <= inner.Keys && r.Keys == inner.Keys && inner == old(inner)
        invariant forall n :: n in inner ==> r[n] == if n in todo then inner[n] else ResetInner(inner, hashes)[n]
        decreases todo
      {
        var n :| n in todo;
        var m := ResetNode(inner[n], hashes);
        r := r[n := m];
        todo := todo - {n};
      }
      assert r == ResetInner(inner, hashes);
      inner := r;
    }

    method ResetNode(m: map<Hash, Series>, hashes: set<Hash>) returns (r: map<Hash, Series>)
      ensures r == map h | h in m :: if h in hashes then KeepLast(m[h], 1) else m[h]
    {
      r := m;
      var todo := hashes;
      while todo != {}
        invariant todo <= hashes && r.Keys == m.Keys
        invariant forall h :: h in m ==> r[h] == if h in hashes - todo then KeepLast(m[h], 1) else m[h]
        decreases todo
      {
        var h :| h in todo;
        if h in r {
          var series := r[h];
          while |series| > 1
            invariant KeepLast(series, 1) == KeepLast(m[h], 1)
          {
            series := series[1..];
          }
          r := r[h := series];
        }
        todo := todo - {h};
      }
    }

    method RestoreSeries(saved: Saved)
      requires Inv(State(), key)
      modifies this
      ensures State() == Restore(old(State()), key, saved)
      ensures Inv(State(), key) <==> old(RestoreSafe(State(), key, saved))
    {
      RestoreKeepsInvIff(State(), key, saved);
      var h := key(saved.meta);
      metadata := metadata[h := saved.meta];
      FileTags(saved.meta.tags, h);
      inner := PutSeries(inner, saved.node, h, saved.points);
    }

    /** Trim every series, drop empty series and nodes, then the metadata and
        index entries of hashes no longer stored. */
    method PerformGc(now: int)
      modifies this
      ensures State() == Gc(old(State()), now - limits.retentionSec * 1000)
    {
      var minTs := now - limits.retentionSec * 1000;
      inner := GcNodes(inner, minTs);
      var alive := CollectAlive(inner);
      metadata := map h | h in metadata && h in alive :: metadata[h];
      tagIndex := PruneIndex(tagIndex, alive);
    }

    method GcNodes(nodes: Inner, minTs: int) returns (trimmed: Inner)
      ensures trimmed == TrimInner(nodes, minTs)
    {
      trimmed := map[];
      var todo := nodes.Keys;
      while todo != {}
        invariant todo <= nodes.Keys
        invariant trimmed == map n | n in nodes && n !in todo && TrimNode(nodes[n], minTs) != map[]
                               :: TrimNode(nodes[n], minTs)
        decreases todo
      {
        var n :| n in todo;
        var m := GcNode(nodes[n], minTs);
        if m != map[] {
          trimmed := trimmed[n := m];
        }
        todo := todo - {n};
      }
    }

    method CollectAlive(nodes: Inner) returns (alive: set<Hash>)
      ensures alive == Alive(nodes)
    {
      alive := {};
      var todo := nodes.Keys;
      while todo != {}
        invariant todo <= nodes.Keys
        invariant forall h :: h in alive <==> exists n :: n in nodes && n !in todo && h in nodes[n]
        decreases todo
      {
        var n :| n in todo;
        alive := alive + nodes[n].Keys;
        todo := todo - {n};
      }
    }

    method GcNode(m: map<Hash, Series>, minTs: int) returns (kept: map<Hash, Series>)
      ensures kept == TrimNode(m, minTs)
    {
      kept := map[];
      var todo := m.Keys;
      while todo != {}
        invariant todo <= m.Keys
        invariant kept == map h | h in m && h !in todo && DropOld(m[h], minTs) != [] :: DropOld(m[h], minTs)
        decreases todo
      {
        var h :| h in todo;
        var series := m[h];
        while series != [] && series[0].timestamp < minTs
          invariant DropOld(series, minTs) == DropOld(m[h], minTs)
          decreases |series|
        {
          series := series[1..];
        }
        if series != [] {
          kept := kept[h := series];
        }
        todo := todo - {h};
      }
    }

    method CompactOldPoints(now: int, olderThanSec: int, intervalSec: int)
      requires AllCompactable(inner, now - olderThanSec * 1000, intervalSec * 1000)
      modifies this`inner
      ensures State() == Compact(old(State()), now - olderThanSec * 1000, intervalSec * 1000)
    {
      inner := CompactNodes(inner, now - olderThanSec * 1000, intervalSec * 1000);
    }

    method CompactNodes(nodes: Inner, threshold: int, interval: int) returns (r: Inner)
      requires AllCompactable(nodes, threshold, interval)
      ensures r == CompactInner(nodes, threshold, interval)
    {
      r := nodes;
      var todo := nodes.Keys;
      while todo != {}
        invariant todo <= nodes.Keys && r.Keys == nodes.Keys
        invariant forall n :: n in nodes ==>
                    r[n] == if n in todo then nodes[n] else CompactInner(nodes, threshold, interval)[n]
        decreases todo
      {
        var n :| n in todo;
        var m := CompactNode(nodes[n], threshold, interval);
        r := r[n := m];
        todo := todo - {n};
      }
    }

    method CompactNode(m: map<Hash, Series>, threshold: int, interval: int) returns (r: map<Hash, Series>)
      requires forall h :: h in m ==> Compactable(m[h], threshold, interval)
      ensures r == map h | h in m :: CompactOld(m[h], threshold, interval)
    {
      r := m;
      var todo := m.Keys;
      while todo != {}
        invariant todo <= m.Keys && r.Keys == m.Keys
        invariant forall h :: h in m ==> r[h] == if h in todo then m[h] else CompactOld(m[h], threshold, interval)
        decreases todo
      {
        var h :| h in todo;
        if |m[h]| >= 100 {
          var aged, recent := SplitAt(m[h], threshold);
          var compacted := CompactSeries(aged, interval);
          r := r[h := compacted + recent];
        }
        todo := todo - {h};
      }
    }

    method SplitAt(s: Series, threshold: int) returns (aged: Series, recent: Series)
      ensures aged == OldPart(s, threshold) && recent == RecentPart(s, threshold)
    {
      aged, recent := [], [];
      for i := 0 to |s|
        invariant aged == OldPart(s[..i], threshold) && recent == RecentPart(s[..i], threshold)
      {
        assert s[..i + 1] == s[..i] + [s[i]];
        FilterSnoc(s[..i], s[i], Older(threshold));
        FilterSnoc(s[..i], s[i], AtLeast(threshold));
        if s[i].timestamp < threshold {
          aged := aged + [s[i]];
        } else {
          recent := recent + [s[i]];
        }
      }
      assert s[..|s|] == s;
    }
  }

  // ---- The index answers like a scan ----

  /** A series with metadata of the asked name is in the index entries of all
      tags exactly when a full metadata scan finds it.  The lookup agrees with
      that scan if and only if there is a tag to look up or nothing to find. */
  lemma IndexLookupIsScan(st: Store, metric: Option<string>, tags: Tags)
    requires IndexExact(st)
    ensures forall h :: h in Scan(st.metadata, metric, tags) <==>
              && (forall k :: k in tags ==> h in Indexed(st.tagIndex, k, tags[k]))
              && h in st.metadata && NameIs(st.metadata[h], metric)
    ensures Selected(st, metric, tags) == Scan(st.metadata, metric, tags) <==>
            tags != map[] || forall h :: h in st.metadata ==> !NameIs(st.metadata[h], metric)
  {
    forall h
      ensures h in Scan(st.metadata, metric, tags) <==>
              && (forall k :: k in tags ==> h in Indexed(st.tagIndex, k, tags[k]))
              && h in st.metadata && NameIs(st.metadata[h], metric)
    {
      forall k | k in tags ensures h in Indexed(st.tagIndex, k, tags[k]) <==> HasTag(st.metadata, h, k, tags[k]) {}
    }
  }

  // ---- Compaction and queries ----

  /** The series' last point survives compaction. */
  predicate KeptLast(s: Series, threshold: int) { s == [] || LastSafe(s, threshold) }

  /** Where the selected series keep their last point compaction changes no
      latest value... */
  lemma CompactKeepsLatest(inner: Inner, threshold: int, interval: int, hashes: set<Hash>)
    requires forall n, h :: n in inner && h in hashes && h in inner[n] ==> KeptLast(inner[n][h], threshold)
    ensures TotalOf(Latest, CompactInner(inner, threshold, interval), hashes) == TotalOf(Latest, inner, hashes)
  {
    var after := CompactInner(inner, threshold, interval);
    assert after.Keys == inner.Keys;
    forall n | n in inner ensures NodePart(Latest, after, hashes)(n) == NodePart(Latest, inner, hashes)(n) {
      forall h | h in hashes ensures SeriesPart(Latest, after[n])(h) == SeriesPart(Latest, inner[n])(h) {
        if h in inner[n] && inner[n][h] != [] {
          assert KeptLast(inner[n][h], threshold);
          CompactOldKeepsLastIff(inner[n][h], threshold, interval);
        }
      }
      SumCongruent(hashes, SeriesPart(Latest, after[n]), SeriesPart(Latest, inner[n]));
    }
    SumCongruent(inner.Keys, NodePart(Latest, after, hashes), NodePart(Latest, inner, hashes));
  }

  /** ...and no heartbeat... */
  lemma CompactKeepsHeartbeats(st: Store, threshold: int, interval: int, n: NodeId)
    requires forall h :: IsHeartbeat(st, n, h) ==> KeptLast(st.inner[n][h], threshold)
    ensures HeartbeatTimes(Compact(st, threshold, interval), n) == HeartbeatTimes(st, n)
  {
    var after := Compact(st, threshold, interval);
    if n in st.inner {
      forall h | h in st.inner[n]
        ensures IsHeartbeat(after, n, h) <==> IsHeartbeat(st, n, h)
        ensures IsHeartbeat(st, n, h) ==>
                  var s, s' := st.inner[n][h], after.inner[n][h];
                  s' != [] && s'[|s'| - 1] == s[|s| - 1]
      {
        if st.inner[n][h] != [] {
          CompactOldKeepsLastIff(st.inner[n][h], threshold, interval);
        }
      }
    }
  }

  function LostPart(m: map<Hash, Series>, threshold: int, interval: int): Hash -> int
  {
    (h: Hash) => if h in m then Lost(m[h], threshold, interval) else 0
  }

  ghost function LostNode(inner: Inner, hashes: set<Hash>, threshold: int, interval: int): NodeId -> int
  {
    (n: NodeId) => if n in inner then SumOver(hashes, LostPart(inner[n], threshold, interval)) else 0
  }

  lemma CompactLowersNode(m: map<Hash, Series>, threshold: int, interval: int, hashes: set<Hash>)
    requires forall h :: h in hashes && h in m ==> TimeOrdered(m[h]) && NonDecreasing(m[h])
    ensures var after := map h | h in m :: CompactOld(m[h], threshold, interval);
            SumOver(hashes, SeriesPart(Total, m)) ==
            SumOver(hashes, SeriesPart(Total, after)) + SumOver(hashes, LostPart(m, threshold, interval))
  {
    var after := map h | h in m :: CompactOld(m[h], threshold, interval);
    forall h | h in hashes
      ensures SeriesPart(Total, m)(h) == SeriesPart(Total, after)(h) + LostPart(m, threshold, interval)(h)
    {
      if h in m {
        CompactOldGrowth(m[h], threshold, interval);
      }
    }
    SumAdds(hashes, SeriesPart(Total, after), LostPart(m, threshold, interval), SeriesPart(Total, m));
  }

  /** ...and lowers counter totals by exactly the growth inside each first
      compacted run. */
  lemma CompactLowersTotals(inner: Inner, threshold: int, interval: int, hashes: set<Hash>)
    requires forall n, h :: n in inner && h in hashes && h in inner[n] ==>
               TimeOrdered(inner[n][h]) && NonDecreasing(inner[n][h])
    ensures TotalOf(Total, inner, hashes) ==
            TotalOf(Total, CompactInner(inner, threshold, interval), hashes) +
            SumOver(inner.Keys, LostNode(inner, hashes, threshold, interval))
  {
    var after := CompactInner(inner, threshold, interval);
    var lost := LostNode(inner, hashes, threshold, interval);
    assert after.Keys == inner.Keys;
    forall n | n in inner
      ensures NodePart(Total, inner, hashes)(n) == NodePart(Total, after, hashes)(n) + lost(n)
    {
      CompactLowersNode(inner[n], threshold, interval, hashes);
    }
    SumAdds(inner.Keys, NodePart(Total, after, hashes), lost, NodePart(Total, inner, hashes));
  }

  // ---- Resetting a subscription ----

  lemma ResetKeepsLatestNode(m: map<Hash, Series>, reset: set<Hash>, hashes: set<Hash>)
    ensures var after := map h | h in m :: if h in reset then KeepLast(m[h], 1) else m[h];
            SumOver(hashes, SeriesPart(Latest, after)) == SumOver(hashes, SeriesPart(Latest, m))
  {
    var after := map h | h in m :: if h in reset then KeepLast(m[h], 1) else m[h];
    SumCongruent(hashes, SeriesPart(Latest, after), SeriesPart(Latest, m));
  }

  /** A reset changes no latest value, of its own series or of others. */
  lemma ResetKeepsLatest(st: Store, subscription: string, hashes: set<Hash>)
    ensures TotalOf(Latest, Reset(st, subscription).inner, hashes) == TotalOf(Latest, st.inner, hashes)
  {
    var after, reset := Reset(st, subscription).inner, Indexed(st.tagIndex, "subscription_id", subscription);
    assert after.Keys == st.inner.Keys;
    forall n | n in st.inner ensures NodePart(Latest, after, hashes)(n) == NodePart(Latest, st.inner, hashes)(n) {
      ResetKeepsLatestNode(st.inner[n], reset, hashes);
    }
    SumCongruent(st.inner.Keys, NodePart(Latest, after, hashes), NodePart(Latest, st.inner, hashes));
  }

  /** After a reset the subscription's series count for nothing in any growth
      query, until new points arrive. */
  lemma ResetClearsGrowth(st: Store, subscription: string, hashes: set<Hash>, q: Query)
    requires IndexExact(st) && q != Latest
    requires forall h :: h in hashes ==> HasTag(st.metadata, h, "subscription_id", subscription)
    ensures TotalOf(q, Reset(st, subscription).inner, hashes) == 0
  {
    var after := Reset(st, subscription).inner;
    assert hashes <= Indexed(st.tagIndex, "subscription_id", subscription);
    forall n | n in after.Keys ensures NodePart(q, after, hashes)(n) == 0 {
      forall h | h in hashes ensures SeriesPart(q, after[n])(h) == 0 {
        if h in after[n] {
          SinglePointGrowth(after[n][h], q);
        }
      }
      SumZero(hashes, SeriesPart(q, after[n]));
    }
    SumZero(after.Keys, NodePart(q, after, hashes));
  }

  lemma SinglePointGrowth(s: Series, q: Query)
    requires |s| <= 1 && q != Latest
    ensures Contribution(q, s) == 0
  {
    match q
    case Delta(from, to) =>
      if s != [] {
        FilterUnfold(s, InRange(from, to));
        assert Filter(s[..0], InRange(from, to)) == [];
      }
    case Total =>
  }
}
