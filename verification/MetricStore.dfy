/**
 The metric storage: series per node and hash, metadata per hash, and an
 inverted tag index, as values and as functions of each operation.  The series
 key is an arbitrary function of name and tags; where collisions matter, the
 lemmas say so.
 */
module MetricStore {
  import opened Collections
  import opened MetricSeries

  type Hash = nat
  type NodeId = nat
  type Tags = map<string, string>

  datatype Meta = Meta(name: string, tags: Tags)
  type SeriesKey = Meta -> Hash

  type Inner = map<NodeId, map<Hash, Series>>
  type Metadata = map<Hash, Meta>
  type TagIndex = map<string, map<string, set<Hash>>>

  datatype Store = Store(inner: Inner, metadata: Metadata, tagIndex: TagIndex)
  datatype Limits = Limits(maxPoints: nat, retentionSec: int)
  datatype Envelope = Envelope(node: NodeId, meta: Meta, point: Point)

  /** A series as it is written to a snapshot. */
  datatype Saved = Saved(node: NodeId, meta: Meta, points: Series)

  const EMPTY := Store(map[], map[], map[])

  // ---- The tag index ----

  function Indexed(ix: TagIndex, k: string, v: string): set<Hash>
  {
    if k in ix && v in ix[k] then ix[k][v] else {}
  }

  function ValuesAt(ix: TagIndex, k: string): map<string, set<Hash>>
  {
    if k in ix then ix[k] else map[]
  }

  /** File hash `h` under tag `k=v`. */
  function IndexTag(ix: TagIndex, k: string, v: string, h: Hash): TagIndex
  {
    ix[k := ValuesAt(ix, k)[v := Indexed(ix, k, v) + {h}]]
  }

  /** File hash `h` under every one of `tags`. */
  function IndexTags(ix: TagIndex, tags: Tags, h: Hash): TagIndex
  {
    map k | k in ix.Keys + tags.Keys ::
      if k in tags then ValuesAt(ix, k)[tags[k] := Indexed(ix, k, tags[k]) + {h}] else ix[k]
  }

  function Surviving(values: map<string, set<Hash>>, alive: set<Hash>): map<string, set<Hash>>
  {
    map v | v in values && values[v] * alive != {} :: values[v] * alive
  }

  /** Keep only the alive hashes, and no empty entries. */
  function PruneIndex(ix: TagIndex, alive: set<Hash>): TagIndex
  {
    map k | k in ix && Surviving(ix[k], alive) != map[] :: Surviving(ix[k], alive)
  }

  predicate HasTag(metadata: Metadata, h: Hash, k: string, v: string)
  {
    h in metadata && k in metadata[h].tags && metadata[h].tags[k] == v
  }

  /** The index files a hash under `k=v` exactly when its metadata has that tag. */
  ghost predicate IndexExact(st: Store)
  {
    forall k, v, h :: h in Indexed(st.tagIndex, k, v) <==> HasTag(st.metadata, h, k, v)
  }

  ghost predicate NoEmptyEntries(ix: TagIndex)
  {
    forall k :: k in ix ==> ix[k] != map[] && forall v :: v in ix[k] ==> ix[k][v] != {}
  }

  ghost predicate IsStored(inner: Inner, h: Hash)
  {
    exists n :: n in inner && h in inner[n]
  }

  /** Metadata exists exactly for the hashes of stored series. */
  ghost predicate KeysMatch(st: Store)
  {
    forall h :: h in st.metadata <==> IsStored(st.inner, h)
  }

  ghost predicate KeyedBy(st: Store, key: SeriesKey)
  {
    forall h :: h in st.metadata ==> key(st.metadata[h]) == h
  }

  ghost predicate Inv(st: Store, key: SeriesKey)
  {
    IndexExact(st) && NoEmptyEntries(st.tagIndex) && KeysMatch(st) && KeyedBy(st, key)
  }

  // ---- Operations ----

  function NodeSeries(inner: Inner, n: NodeId): map<Hash, Series>
  {
    if n in inner then inner[n] else map[]
  }

  function SeriesAt(inner: Inner, n: NodeId, h: Hash): Series
  {
    if n in inner && h in inner[n] then inner[n][h] else []
  }

  function PutSeries(inner: Inner, n: NodeId, h: Hash, s: Series): Inner
  {
    inner[n := NodeSeries(inner, n)[h := s]]
  }

  function Appended(s: Series, p: Point, limits: Limits): Series
  {
    DropOld(KeepLast(s + [p], limits.maxPoints), p.timestamp - limits.retentionSec * 1000)
  }

  /** `insert_envelope`: metadata and index are written once per hash. */
  function Insert(st: Store, key: SeriesKey, limits: Limits, e: Envelope): Store
  {
    var h := key(e.meta);
    var inner := PutSeries(st.inner, e.node, h, Appended(SeriesAt(st.inner, e.node, h), e.point, limits));
    if h in st.metadata then st.(inner := inner)
    else Store(inner, st.metadata[h := e.meta], IndexTags(st.tagIndex, e.meta.tags, h))
  }

  function TrimNode(m: map<Hash, Series>, minTs: int): map<Hash, Series>
  {
    map h | h in m && DropOld(m[h], minTs) != [] :: DropOld(m[h], minTs)
  }

  function TrimInner(inner: Inner, minTs: int): Inner
  {
    map n | n in inner && TrimNode(inner[n], minTs) != map[] :: TrimNode(inner[n], minTs)
  }

  function Alive(inner: Inner): set<Hash>
  {
    set n, h | n in inner && h in inner[n] :: h
  }

  /** `perform_gc` with everything before `minTs` expired. */
  function Gc(st: Store, minTs: int): Store
  {
    var inner := TrimInner(st.inner, minTs);
    var alive := Alive(inner);
    Store(inner, map h | h in st.metadata && h in alive :: st.metadata[h], PruneIndex(st.tagIndex, alive))
  }

  function CompactInner(inner: Inner, threshold: int, interval: int): Inner
  {
    map n | n in inner :: map h | h in inner[n] :: CompactOld(inner[n][h], threshold, interval)
  }

  predicate AllCompactable(inner: Inner, threshold: int, interval: int)
  {
    forall n, h :: n in inner && h in inner[n] ==> Compactable(inner[n][h], threshold, interval)
  }

  function Compact(st: Store, threshold: int, interval: int): Store
  {
    st.(inner := CompactInner(st.inner, threshold, interval))
  }

  function ResetInner(inner: Inner, hashes: set<Hash>): Inner
  {
    map n | n in inner :: map h | h in inner[n] :: if h in hashes then KeepLast(inner[n][h], 1) else inner[n][h]
  }

  /** `reset_subscription_series`: keep the last point of each of its series. */
  function Reset(st: Store, subscription: string): Store
  {
    st.(inner := ResetInner(st.inner, Indexed(st.tagIndex, "subscription_id", subscription)))
  }

  /** `restore_series`: metadata is overwritten, the index only added to. */
  function Restore(st: Store, key: SeriesKey, saved: Saved): Store
  {
    var h := key(saved.meta);
    Store(PutSeries(st.inner, saved.node, h, saved.points),
          st.metadata[h := saved.meta], IndexTags(st.tagIndex, saved.meta.tags, h))
  }

  // ---- Retention ----

  /** A series after an insertion is a suffix of the old one with the new
      point; only what exceeds the length limit or is too old is missing, and
      with room for one point and a nonnegative retention the new one stays. */
  lemma AppendedMeaning(s: Series, p: Point, limits: Limits)
    ensures var all, r, minTs := s + [p], Appended(s, p, limits), p.timestamp - limits.retentionSec * 1000;
            && |r| <= |all| && |r| <= limits.maxPoints && r == all[|all| - |r|..]
            && (r != [] ==> r[0].timestamp >= minTs)
            && (forall i :: 0 <= i < |all| - |r| ==> |all| - i > limits.maxPoints || all[i].timestamp < minTs)
            && (limits.maxPoints >= 1 && limits.retentionSec >= 0 ==> r != [] && r[|r| - 1] == p)
  {
    var all, minTs := s + [p], p.timestamp - limits.retentionSec * 1000;
    var kept := KeepLast(all, limits.maxPoints);
    DropOldSuffix(kept, minTs);
    DropOldStops(kept, minTs);
    if kept != [] {
      assert kept[|kept| - 1] == p;
    }
  }

  // ---- Index lemmas ----

  lemma IndexTagsMeaning(ix: TagIndex, tags: Tags, h: Hash)
    ensures forall k, v :: Indexed(IndexTags(ix, tags, h), k, v) ==
              Indexed(ix, k, v) + if k in tags && tags[k] == v then {h} else {}
    ensures NoEmptyEntries(ix) ==> NoEmptyEntries(IndexTags(ix, tags, h))
  {
  }

  lemma IndexTagsSnoc(ix: TagIndex, tags: Tags, k: string, v: string, h: Hash)
    requires k !in tags
    ensures IndexTag(IndexTags(ix, tags, h), k, v, h) == IndexTags(ix, tags[k := v], h)
  {
    assert ValuesAt(IndexTags(ix, tags, h), k) == ValuesAt(ix, k);
  }

  lemma PruneIndexMeaning(ix: TagIndex, alive: set<Hash>)
    ensures forall k, v :: Indexed(PruneIndex(ix, alive), k, v) == Indexed(ix, k, v) * alive
    ensures NoEmptyEntries(PruneIndex(ix, alive))
  {
    forall k, v ensures Indexed(PruneIndex(ix, alive), k, v) == Indexed(ix, k, v) * alive {
      if k in ix && v in ix[k] && ix[k][v] * alive != {} {
        assert v in Surviving(ix[k], alive);
      }
    }
  }

  /** An exact index without empty entries is determined by the metadata. */
  lemma IndexDetermined(a: Store, b: Store)
    requires a.metadata == b.metadata && IndexExact(a) && IndexExact(b)
    requires NoEmptyEntries(a.tagIndex) && NoEmptyEntries(b.tagIndex)
    ensures a.tagIndex == b.tagIndex
  {
    forall k, v ensures Indexed(a.tagIndex, k, v) == Indexed(b.tagIndex, k, v) {
      assert forall h :: h in Indexed(a.tagIndex, k, v) <==> h in Indexed(b.tagIndex, k, v);
    }
    SameKeys(a.tagIndex, b.tagIndex);
    SameKeys(b.tagIndex, a.tagIndex);
    forall k | k in a.tagIndex ensures a.tagIndex[k] == b.tagIndex[k] {
      forall v ensures v in a.tagIndex[k] <==> v in b.tagIndex[k] {
        assert v in a.tagIndex[k] <==> Indexed(a.tagIndex, k, v) != {};
        assert v in b.tagIndex[k] <==> Indexed(b.tagIndex, k, v) != {};
      }
      forall v | v in a.tagIndex[k] ensures a.tagIndex[k][v] == b.tagIndex[k][v] {
        assert a.tagIndex[k][v] == Indexed(a.tagIndex, k, v);
      }
    }
  }

  lemma SameKeys(a: TagIndex, b: TagIndex)
    requires NoEmptyEntries(a)
    requires forall k, v :: Indexed(a, k, v) == Indexed(b, k, v)
    ensures forall k :: k in a ==> k in b
  {
    forall k | k in a ensures k in b {
      var v :| v in a[k];
      assert Indexed(a, k, v) != {};
    }
  }

  // ---- Every operation keeps the invariant ----

  lemma PutStored(inner: Inner, n: NodeId, h: Hash, s: Series)
    ensures forall x :: IsStored(PutSeries(inner, n, h, s), x) <==> IsStored(inner, x) || x == h
  {
    var after := PutSeries(inner, n, h, s);
    assert n in after && h in after[n];
    forall x | IsStored(inner, x) ensures IsStored(after, x) {
      var m :| m in inner && x in inner[m];
      assert m in after && x in after[m];
    }
    forall x | IsStored(after, x) && x != h ensures IsStored(inner, x) {
      var m :| m in after && x in after[m];
      assert m in inner && x in inner[m];
    }
  }

  lemma InsertKeepsInv(st: Store, key: SeriesKey, limits: Limits, e: Envelope)
    requires Inv(st, key)
    ensures Inv(Insert(st, key, limits, e), key)
  {
    var h := key(e.meta);
    PutStored(st.inner, e.node, h, Appended(SeriesAt(st.inner, e.node, h), e.point, limits));
    if h !in st.metadata {
      FileKeepsExact(st, Insert(st, key, limits, e), h, e.meta);
    }
  }

  /** Filing a new hash under its tags keeps the index exact. */
  lemma FileKeepsExact(st: Store, after: Store, h: Hash, meta: Meta)
    requires IndexExact(st) && h !in st.metadata
    requires after.metadata == st.metadata[h := meta] && after.tagIndex == IndexTags(st.tagIndex, meta.tags, h)
    ensures IndexExact(after) && (NoEmptyEntries(st.tagIndex) ==> NoEmptyEntries(after.tagIndex))
  {
    IndexTagsMeaning(st.tagIndex, meta.tags, h);
    forall k, v, x ensures x in Indexed(after.tagIndex, k, v) <==> HasTag(after.metadata, x, k, v) {
      assert x in Indexed(st.tagIndex, k, v) <==> HasTag(st.metadata, x, k, v);
    }
  }

  lemma AliveIsStored(inner: Inner)
    ensures forall h :: h in Alive(inner) <==> IsStored(inner, h)
  {
  }

  lemma TrimmedStored(inner: Inner, minTs: int, h: Hash)
    requires IsStored(TrimInner(inner, minTs), h)
    ensures IsStored(inner, h)
  {
    var n :| n in TrimInner(inner, minTs) && h in TrimInner(inner, minTs)[n];
    assert n in inner && h in inner[n];
  }

  lemma GcKeepsInv(st: Store, key: SeriesKey, minTs: int)
    requires Inv(st, key)
    ensures Inv(Gc(st, minTs), key)
  {
    var inner := TrimInner(st.inner, minTs);
    AliveIsStored(inner);
    PruneIndexMeaning(st.tagIndex, Alive(inner));
    forall h | IsStored(inner, h) ensures h in st.metadata {
      TrimmedStored(st.inner, minTs, h);
    }
  }

  ghost predicate SameShape(a: Inner, b: Inner)
  {
    a.Keys == b.Keys && forall n :: n in a ==> a[n].Keys == b[n].Keys
  }

  lemma SameShapeKeepsInv(st: Store, inner: Inner, key: SeriesKey)
    requires Inv(st, key) && SameShape(st.inner, inner)
    ensures Inv(st.(inner := inner), key)
  {
    forall h ensures IsStored(inner, h) <==> IsStored(st.inner, h) {
      if IsStored(inner, h) {
        var n :| n in inner && h in inner[n];
        assert n in st.inner && h in st.inner[n];
      }
      if IsStored(st.inner, h) {
        var n :| n in st.inner && h in st.inner[n];
        assert n in inner && h in inner[n];
      }
    }
  }

  lemma CompactKeepsInv(st: Store, key: SeriesKey, threshold: int, interval: int)
    requires Inv(st, key)
    ensures Inv(Compact(st, threshold, interval), key)
  {
    SameShapeKeepsInv(st, CompactInner(st.inner, threshold, interval), key);
  }

  /** Restoring over metadata it does not agree with is safe only when no old
      tag is lost. */
  predicate RestoreSafe(st: Store, key: SeriesKey, saved: Saved)
  {
    var h := key(saved.meta);
    h in st.metadata ==> st.metadata[h].tags.Items <= saved.meta.tags.Items
  }

  lemma RestoreFiles(st: Store, key: SeriesKey, saved: Saved, k: string, v: string)
    ensures var h, tags := key(saved.meta), saved.meta.tags;
            Indexed(Restore(st, key, saved).tagIndex, k, v) ==
            Indexed(st.tagIndex, k, v) + if k in tags && tags[k] == v then {h} else {}
  {
    IndexTagsMeaning(st.tagIndex, saved.meta.tags, key(saved.meta));
  }

  lemma RestoreKeepsExact(st: Store, key: SeriesKey, saved: Saved)
    requires IndexExact(st) && RestoreSafe(st, key, saved)
    ensures IndexExact(Restore(st, key, saved))
  {
    var after, h := Restore(st, key, saved), key(saved.meta);
    forall k, v, x ensures x in Indexed(after.tagIndex, k, v) <==> HasTag(after.metadata, x, k, v) {
      RestoreFiles(st, key, saved, k, v);
      if x == h && HasTag(st.metadata, h, k, v) {
        assert (k, v) in st.metadata[h].tags.Items;
      }
    }
  }

  lemma UnsafeRestoreBreaksExact(st: Store, key: SeriesKey, saved: Saved)
    requires IndexExact(st) && !RestoreSafe(st, key, saved)
    ensures !IndexExact(Restore(st, key, saved))
  {
    var after, h := Restore(st, key, saved), key(saved.meta);
    var item :| item in st.metadata[h].tags.Items && item !in saved.meta.tags.Items;
    assert HasTag(st.metadata, h, item.0, item.1);
    RestoreFiles(st, key, saved, item.0, item.1);
    assert h in Indexed(after.tagIndex, item.0, item.1);
    assert !HasTag(after.metadata, h, item.0, item.1);
  }

  /** A restore keeps the invariant if and only if every tag already filed for
      that hash is also a tag of the restored series. */
  lemma RestoreKeepsInvIff(st: Store, key: SeriesKey, saved: Saved)
    requires Inv(st, key)
    ensures Inv(Restore(st, key, saved), key) <==> RestoreSafe(st, key, saved)
  {
    if RestoreSafe(st, key, saved) {
      RestoreKeepsExact(st, key, saved);
      PutStored(st.inner, saved.node, key(saved.meta), saved.points);
      IndexTagsMeaning(st.tagIndex, saved.meta.tags, key(saved.meta));
    } else {
      UnsafeRestoreBreaksExact(st, key, saved);
    }
  }

  ghost predicate CollisionFree(key: SeriesKey)
  {
    forall a, b :: key(a) == key(b) ==> a == b
  }

  function OneHash(): SeriesKey { (m: Meta) => 7 }

  /** Two metadata entries with one hash: after the second is restored the
      index still files the hash under the first one's tag. */
  lemma CollidingRestoreBreaksIndex()
    ensures var st := Store(map[1 := map[7 := [Point(0, 0)]]], map[7 := Meta("m", map["k" := "v"])],
                            map["k" := map["v" := {7}]]);
            Inv(st, OneHash()) && !Inv(Restore(st, OneHash(), Saved(1, Meta("m", map[]), [Point(0, 0)])), OneHash())
  {
    var st := Store(map[1 := map[7 := [Point(0, 0)]]], map[7 := Meta("m", map["k" := "v"])],
                    map["k" := map["v" := {7}]]);
    var saved := Saved(1, Meta("m", map[]), [Point(0, 0)]);
    assert IsStored(st.inner, 7) by {
      assert 1 in st.inner && 7 in st.inner[1];
    }
    assert NoEmptyEntries(st.tagIndex) by {
      assert "v" in st.tagIndex["k"] && 7 in st.tagIndex["k"]["v"];
    }
    RestoreKeepsInvIff(st, OneHash(), saved);
    assert ("k", "v") in st.metadata[7].tags.Items && ("k", "v") !in saved.meta.tags.Items;
  }

  lemma CollisionFreeRestoreSafe(st: Store, key: SeriesKey, saved: Saved)
    requires Inv(st, key) && CollisionFree(key)
    ensures RestoreSafe(st, key, saved)
  {
  }

  // ---- Runs ----

  datatype Op =
    | InsertOp(e: Envelope)
    | GcOp(minTs: int)
    | CompactOp(threshold: int, interval: int)
    | ResetOp(subscription: string)
    | RestoreOp(saved: Saved)

  /** A compaction that would divide by zero does not return. */
  function Step(st: Store, key: SeriesKey, limits: Limits, op: Op): Store
  {
    match op
    case InsertOp(e) => Insert(st, key, limits, e)
    case GcOp(minTs) => Gc(st, minTs)
    case CompactOp(threshold, interval) =>
      if AllCompactable(st.inner, threshold, interval) then Compact(st, threshold, interval) else st
    case ResetOp(subscription) => Reset(st, subscription)
    case RestoreOp(saved) => Restore(st, key, saved)
  }

  function Run(key: SeriesKey, limits: Limits, ops: seq<Op>): Store
  {
    if ops == [] then EMPTY else Step(Run(key, limits, ops[..|ops| - 1]), key, limits, ops[|ops| - 1])
  }

  lemma StepKeepsInv(st: Store, key: SeriesKey, limits: Limits, op: Op)
    requires Inv(st, key) && (op.RestoreOp? ==> RestoreSafe(st, key, op.saved))
    ensures Inv(Step(st, key, limits, op), key)
  {
    match op
    case InsertOp(e) => InsertKeepsInv(st, key, limits, e);
    case GcOp(minTs) => GcKeepsInv(st, key, minTs);
    case CompactOp(threshold, interval) =>
      CompactKeepsInv(st, key, threshold, interval);
    case ResetOp(subscription) =>
      SameShapeKeepsInv(st, Reset(st, subscription).inner, key);
    case RestoreOp(saved) => RestoreKeepsInvIff(st, key, saved);
  }

  /** With collision-free keys every sequence of operations keeps index,
      metadata and series in step; without restores, so does any key function. */
  lemma {:induction false} RunKeepsInv(key: SeriesKey, limits: Limits, ops: seq<Op>)
    requires CollisionFree(key) || forall i :: 0 <= i < |ops| ==> !ops[i].RestoreOp?
    ensures Inv(Run(key, limits, ops), key)
  {
    if ops == [] {
    } else {
      var before, op := Run(key, limits, ops[..|ops| - 1]), ops[|ops| - 1];
      RunKeepsInv(key, limits, ops[..|ops| - 1]);
      if op.RestoreOp? {
        CollisionFreeRestoreSafe(before, key, op.saved);
      }
      StepKeepsInv(before, key, limits, op);
    }
  }
}
