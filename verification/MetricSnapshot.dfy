/** Saving the metric storage in size-limited parts, and loading it back. */
module MetricSnapshot {
  import opened Collections
  import opened MetricSeries
  import opened MetricStore
  import opened MetricStorage

  const PART_SIZE: nat := 300 * 1024 * 1024
  const POINT_SIZE: nat := 16

  predicate ShouldPersist(metric: string)
  {
    metric in {
      "user.traffic.uplink", "user.traffic.downlink", "user.traffic.online",
      "net.inbound.VlessTcpReality.uplink", "net.inbound.VlessTcpReality.downlink",
      "net.inbound.VlessXhttpReality.uplink", "net.inbound.VlessXhttpReality.downlink",
      "net.inbound.VlessXhttpCdn.uplink", "net.inbound.VlessXhttpCdn.downlink",
      "net.inbound.VlessGrpcReality.uplink", "net.inbound.VlessGrpcReality.downlink"
    }
  }

  function Persists(): string -> bool { (metric: string) => ShouldPersist(metric) }

  // ---- Splitting into parts ----

  function EstimatedSize(s: Saved): nat
  {
    |s.points| * POINT_SIZE + |s.meta.name| + 2048
  }

  function SizeOf(part: seq<Saved>): nat
  {
    if part == [] then 0 else SizeOf(part[..|part| - 1]) + EstimatedSize(part[|part| - 1])
  }

  function Concat(parts: seq<seq<Saved>>): seq<Saved>
  {
    if parts == [] then [] else Concat(parts[..|parts| - 1]) + parts[|parts| - 1]
  }

  /** A part is nonempty and was under the limit before its last member. */
  ghost predicate PartOk(part: seq<Saved>)
  {
    part != [] && SizeOf(part[..|part| - 1]) < PART_SIZE
  }

  /** Full parts and an open one that together hold the series so far. */
  ghost predicate Building(parts: seq<seq<Saved>>, current: seq<Saved>, done: seq<Saved>)
  {
    && Concat(parts + [current]) == done && (current != [] ==> PartOk(current))
    && forall i :: 0 <= i < |parts| ==> PartOk(parts[i]) && SizeOf(parts[i]) >= PART_SIZE
  }

  lemma ConcatSnoc(parts: seq<seq<Saved>>, part: seq<Saved>)
    ensures Concat(parts + [part]) == Concat(parts) + part
  {
    assert (parts + [part])[..|parts|] == parts;
  }

  lemma SizeSnoc(part: seq<Saved>, s: Saved)
    ensures (part + [s])[..|part|] == part && SizeOf(part + [s]) == SizeOf(part) + EstimatedSize(s)
  {
    assert (part + [s])[..|part|] == part;
  }

  lemma PartClosed(parts: seq<seq<Saved>>, current: seq<Saved>, done: seq<Saved>)
    requires Building(parts, current, done) && SizeOf(current) >= PART_SIZE && current != []
    ensures Building(parts + [current], [], done)
  {
    ConcatSnoc(parts + [current], []);
    assert done + [] == done;
  }

  lemma PartGrows(parts: seq<seq<Saved>>, current: seq<Saved>, done: seq<Saved>, s: Saved)
    requires Building(parts, current, done) && SizeOf(current) < PART_SIZE
    ensures Building(parts, current + [s], done + [s])
  {
    SizeSnoc(current, s);
    ConcatSnoc(parts, current);
    ConcatSnoc(parts, current + [s]);
    assert Concat(parts) + (current + [s]) == Concat(parts) + current + [s];
  }

  function AddSeries(parts: seq<seq<Saved>>, current: seq<Saved>, s: Saved): (seq<seq<Saved>>, seq<Saved>)
  {
    if SizeOf(current) >= PART_SIZE && current != [] then (parts + [current], [] + [s]) else (parts, current + [s])
  }

  /** The closed parts and the open one after a list of series. */
  function Split(list: seq<Saved>): (seq<seq<Saved>>, seq<Saved>)
  {
    if list == [] then ([], []) else
      var (parts, current) := Split(list[..|list| - 1]);
      AddSeries(parts, current, list[|list| - 1])
  }

  lemma SplitNext(list: seq<Saved>, i: nat)
    requires i < |list|
    ensures var (parts, current) := Split(list[..i]); Split(list[..i + 1]) == AddSeries(parts, current, list[i])
  {
    assert list[..i + 1][..i] == list[..i];
  }

  function Closed(parts: seq<seq<Saved>>, current: seq<Saved>): seq<seq<Saved>>
  {
    if current != [] then parts + [current] else parts
  }

  lemma {:induction false} SplitBuilds(list: seq<Saved>)
    ensures Building(Split(list).0, Split(list).1, list)
  {
    if list == [] {
      ConcatSnoc([], []);
    } else {
      var init, s := list[..|list| - 1], list[|list| - 1];
      var (parts, current) := Split(init);
      SplitBuilds(init);
      assert list == init + [s];
      if SizeOf(current) >= PART_SIZE && current != [] {
        PartClosed(parts, current, init);
        PartGrows(parts + [current], [], init, s);
      } else {
        PartGrows(parts, current, init, s);
      }
    }
  }

  lemma ClosedParts(list: seq<Saved>)
    ensures var parts := Closed(Split(list).0, Split(list).1);
            && Concat(parts) == list && (forall i :: 0 <= i < |parts| ==> PartOk(parts[i]))
            && (forall i :: 0 <= i < |parts| - 1 ==> SizeOf(parts[i]) >= PART_SIZE)
  {
    SplitBuilds(list);
    ConcatSnoc(Split(list).0, Split(list).1);
  }

  /** The part-building loop: close the part before a series once it is full. */
  method SplitParts(list: seq<Saved>) returns (parts: seq<seq<Saved>>)
    ensures Concat(parts) == list
    ensures forall i :: 0 <= i < |parts| ==> PartOk(parts[i])
    ensures forall i :: 0 <= i < |parts| - 1 ==> SizeOf(parts[i]) >= PART_SIZE
  {
    parts := [];
    var current: seq<Saved>, size := [], 0;
    for i := 0 to |list|
      invariant (parts, current) == Split(list[..i]) && size == SizeOf(current)
    {
      SplitNext(list, i);
      if size >= PART_SIZE && current != [] {
        parts := parts + [current];
        current, size := [], 0;
      }
      SizeSnoc(current, list[i]);
      current := current + [list[i]];
      size := size + EstimatedSize(list[i]);
    }
    assert list[..|list|] == list;
    ClosedParts(list);
    if current != [] {
      parts := parts + [current];
    }
  }

  // ---- What is listed ----

  datatype Slot = Slot(node: NodeId, hash: Hash)

  predicate Listed(st: Store, keep: string -> bool, k: Slot)
  {
    k.node in st.inner && k.hash in st.inner[k.node] && k.hash in st.metadata
    && keep(st.metadata[k.hash].name)
  }

  function SavedAt(st: Store, k: Slot): Saved
    requires k.node in st.inner && k.hash in st.inner[k.node] && k.hash in st.metadata
  {
    Saved(k.node, st.metadata[k.hash], st.inner[k.node][k.hash])
  }

  ghost predicate AllListed(st: Store, keep: string -> bool, order: seq<Slot>)
  {
    forall i :: 0 <= i < |order| ==> Listed(st, keep, order[i])
  }

  function Listing(st: Store, keep: string -> bool, order: seq<Slot>): seq<Saved>
    requires AllListed(st, keep, order)
  {
    seq(|order|, i requires 0 <= i < |order| => SavedAt(st, order[i]))
  }

  function RestoreAll(st: Store, key: SeriesKey, list: seq<Saved>): Store
  {
    if list == [] then st else Restore(RestoreAll(st, key, list[..|list| - 1]), key, list[|list| - 1])
  }

  /** The store restricted to the series named in `keys`. */
  ghost predicate HoldsExactly(r: Store, st: Store, keep: string -> bool, keys: set<Slot>)
  {
    && (forall n, h :: n in r.inner && h in r.inner[n] <==> Slot(n, h) in keys)
    && (forall k :: k in keys ==> Listed(st, keep, k) && r.inner[k.node][k.hash] == st.inner[k.node][k.hash])
    && (forall n :: n in r.inner ==> r.inner[n] != map[])
    && (forall h :: h in r.metadata ==> h in st.metadata && r.metadata[h] == st.metadata[h])
  }

  function ToSet(order: seq<Slot>): (keys: set<Slot>)
    ensures forall k :: k in keys <==> k in order
  {
    set k | k in order
  }

  lemma RestoreOneHolds(r: Store, st: Store, keep: string -> bool, key: SeriesKey, keys: set<Slot>, k: Slot)
    requires HoldsExactly(r, st, keep, keys) && Listed(st, keep, k) && key(st.metadata[k.hash]) == k.hash
    ensures HoldsExactly(Restore(r, key, SavedAt(st, k)), st, keep, keys + {k})
  {
    var after := Restore(r, key, SavedAt(st, k));
    forall n, h ensures n in after.inner && h in after.inner[n] <==> Slot(n, h) in keys + {k} {
      assert n in r.inner && h in r.inner[n] <==> Slot(n, h) in keys;
    }
    forall x | x in keys + {k}
      ensures Listed(st, keep, x) && after.inner[x.node][x.hash] == st.inner[x.node][x.hash]
    {
      assert x == Slot(x.node, x.hash);
    }
  }

  lemma RestoreOneInv(r: Store, key: SeriesKey, saved: Saved)
    requires Inv(r, key)
    requires key(saved.meta) in r.metadata ==> r.metadata[key(saved.meta)] == saved.meta
    ensures Inv(Restore(r, key, saved), key)
  {
    RestoreKeepsInvIff(r, key, saved);
  }

  /** Restoring one more slot. */
  lemma RestoreSnoc(st: Store, keep: string -> bool, key: SeriesKey, order: seq<Slot>)
    requires order != [] && AllListed(st, keep, order)
    ensures var n := |order| - 1;
            && AllListed(st, keep, order[..n])
            && RestoreAll(EMPTY, key, Listing(st, keep, order)) ==
               Restore(RestoreAll(EMPTY, key, Listing(st, keep, order[..n])), key, SavedAt(st, order[n]))
            && ToSet(order) == ToSet(order[..n]) + {order[n]}
  {
    var list, n := Listing(st, keep, order), |order| - 1;
    assert list[..n] == Listing(st, keep, order[..n]) && list[n] == SavedAt(st, order[n]);
    assert order == order[..n] + [order[n]];
  }

  lemma {:induction false} RestoreListingHolds(st: Store, keep: string -> bool, key: SeriesKey, order: seq<Slot>)
    requires AllListed(st, keep, order) && KeyedBy(st, key)
    ensures HoldsExactly(RestoreAll(EMPTY, key, Listing(st, keep, order)), st, keep, ToSet(order))
  {
    if order != [] {
      var init, k := order[..|order| - 1], order[|order| - 1];
      RestoreSnoc(st, keep, key, order);
      RestoreListingHolds(st, keep, key, init);
      RestoreOneHolds(RestoreAll(EMPTY, key, Listing(st, keep, init)), st, keep, key, ToSet(init), k);
    }
  }

  /** Restoring a listing in any order, from any number of parts, rebuilds
      exactly the listed series, with an exact index; no assumption on
      collisions is needed, because a hash has one metadata entry. */
  lemma {:induction false} RestoreListing(st: Store, keep: string -> bool, key: SeriesKey, order: seq<Slot>)
    requires AllListed(st, keep, order) && KeyedBy(st, key)
    ensures HoldsExactly(RestoreAll(EMPTY, key, Listing(st, keep, order)), st, keep, ToSet(order))
    ensures Inv(RestoreAll(EMPTY, key, Listing(st, keep, order)), key)
  {
    RestoreListingHolds(st, keep, key, order);
    if order != [] {
      var init, k := order[..|order| - 1], order[|order| - 1];
      RestoreSnoc(st, keep, key, order);
      RestoreListing(st, keep, key, init);
      RestoreOneInv(RestoreAll(EMPTY, key, Listing(st, keep, init)), key, SavedAt(st, k));
    }
  }

  // ---- The round trip ----

  function PersistedNode(m: map<Hash, Series>, metadata: Metadata, keep: string -> bool): map<Hash, Series>
  {
    map h | h in m && h in metadata && keep(metadata[h].name) :: m[h]
  }

  function PersistedHashes(metadata: Metadata, keep: string -> bool): set<Hash>
  {
    set h | h in metadata && keep(metadata[h].name)
  }

  /** The store restricted to the persisted metrics. */
  function Persisted(st: Store, keep: string -> bool): Store
  {
    var hashes := PersistedHashes(st.metadata, keep);
    Store(map n | n in st.inner && PersistedNode(st.inner[n], st.metadata, keep) != map[] ::
            PersistedNode(st.inner[n], st.metadata, keep),
          map h | h in hashes :: st.metadata[h],
          PruneIndex(st.tagIndex, hashes))
  }

  ghost predicate Complete(st: Store, keep: string -> bool, order: seq<Slot>)
  {
    AllListed(st, keep, order) && forall k :: Listed(st, keep, k) ==> k in order
  }

  ghost predicate SameListed(a: Inner, b: Inner)
  {
    forall n, h :: n in a && h in a[n] <==> n in b && h in b[n]
  }

  /** Two families of nonempty maps with the same entries are equal. */
  lemma InnerExtensional(a: Inner, b: Inner)
    requires forall n :: n in a ==> a[n] != map[]
    requires forall n :: n in b ==> b[n] != map[]
    requires SameListed(a, b)
    requires forall n, h :: n in a && h in a[n] && n in b && h in b[n] ==> a[n][h] == b[n][h]
    ensures a == b
  {
    forall n | n in a ensures n in b {
      var h :| h in a[n];
    }
    forall n | n in b ensures n in a {
      var h :| h in b[n];
    }
    forall n | n in a ensures a[n] == b[n] {
      assert forall h :: h in a[n] <==> h in b[n];
    }
  }

  lemma PersistedIffListed(st: Store, keep: string -> bool, n: NodeId, h: Hash)
    ensures n in Persisted(st, keep).inner && h in Persisted(st, keep).inner[n] <==> Listed(st, keep, Slot(n, h))
  {
    if Listed(st, keep, Slot(n, h)) {
      assert h in PersistedNode(st.inner[n], st.metadata, keep);
    }
  }

  function SlotSeries(m: map<Hash, Series>, n: NodeId, keys: set<Slot>): map<Hash, Series>
  {
    map h | h in m && Slot(n, h) in keys :: m[h]
  }

  function SlotHashes(keys: set<Slot>): set<Hash>
  {
    set k | k in keys :: k.hash
  }

  /** The store restricted to some of its slots. */
  function Restricted(st: Store, keys: set<Slot>): Store
  {
    var hashes := SlotHashes(keys);
    Store(map n | n in st.inner && SlotSeries(st.inner[n], n, keys) != map[] :: SlotSeries(st.inner[n], n, keys),
          map h | h in st.metadata && h in hashes :: st.metadata[h],
          PruneIndex(st.tagIndex, hashes))
  }

  lemma RestrictedIff(st: Store, keys: set<Slot>, n: NodeId, h: Hash)
    ensures var inner := Restricted(st, keys).inner;
            && (n in inner && h in inner[n] <==> n in st.inner && h in st.inner[n] && Slot(n, h) in keys)
            && (n in inner && h in inner[n] ==> inner[n][h] == st.inner[n][h])
  {
    if n in st.inner && h in st.inner[n] && Slot(n, h) in keys {
      assert h in SlotSeries(st.inner[n], n, keys);
    }
  }

  lemma RestrictedExact(st: Store, keys: set<Slot>)
    requires IndexExact(st)
    ensures IndexExact(Restricted(st, keys)) && NoEmptyEntries(Restricted(st, keys).tagIndex)
  {
    PruneIndexMeaning(st.tagIndex, SlotHashes(keys));
  }

  lemma HeldInner(r: Store, st: Store, keep: string -> bool, keys: set<Slot>)
    requires HoldsExactly(r, st, keep, keys)
    ensures r.inner == Restricted(st, keys).inner
  {
    var a, b := r.inner, Restricted(st, keys).inner;
    forall n, h
      ensures n in a && h in a[n] <==> n in b && h in b[n]
      ensures n in a && h in a[n] ==> a[n][h] == b[n][h]
    {
      assert n in a && h in a[n] <==> Slot(n, h) in keys;
      RestrictedIff(st, keys, n, h);
    }
    InnerExtensional(a, b);
  }

  lemma HeldMetadata(r: Store, st: Store, keep: string -> bool, keys: set<Slot>)
    requires HoldsExactly(r, st, keep, keys) && KeysMatch(r)
    ensures r.metadata == Restricted(st, keys).metadata
  {
    forall h ensures h in r.metadata <==> h in SlotHashes(keys) {
      if h in r.metadata {
        var n :| n in r.inner && h in r.inner[n];
        assert Slot(n, h) in keys;
      }
      if h in SlotHashes(keys) {
        var k :| k in keys && k.hash == h;
        assert k == Slot(k.node, h);
      }
    }
  }

  /** A store that holds exactly some slots of another, with its invariant, is
      that one's restriction: series, metadata and index. */
  lemma HeldIsRestricted(r: Store, st: Store, keep: string -> bool, key: SeriesKey, keys: set<Slot>)
    requires HoldsExactly(r, st, keep, keys) && Inv(r, key) && IndexExact(st)
    ensures r == Restricted(st, keys)
  {
    HeldInner(r, st, keep, keys);
    HeldMetadata(r, st, keep, keys);
    RestrictedExact(st, keys);
    IndexDetermined(r, Restricted(st, keys));
  }

  lemma AllListedHashes(st: Store, keep: string -> bool, keys: set<Slot>)
    requires KeysMatch(st) && forall k :: k in keys <==> Listed(st, keep, k)
    ensures SlotHashes(keys) == PersistedHashes(st.metadata, keep)
  {
    forall h | h in st.metadata && keep(st.metadata[h].name) ensures h in SlotHashes(keys) {
      var n :| n in st.inner && h in st.inner[n];
      assert Slot(n, h) in keys;
    }
  }

  lemma ListedInner(st: Store, keep: string -> bool, keys: set<Slot>)
    requires forall k :: k in keys <==> Listed(st, keep, k)
    ensures Restricted(st, keys).inner == Persisted(st, keep).inner
  {
    var a, b := Restricted(st, keys).inner, Persisted(st, keep).inner;
    forall n, h
      ensures n in a && h in a[n] <==> n in b && h in b[n]
      ensures n in a && h in a[n] && n in b && h in b[n] ==> a[n][h] == b[n][h]
    {
      SameSeries(st, keep, keys, n, h);
    }
    InnerExtensional(a, b);
  }

  lemma SameSeries(st: Store, keep: string -> bool, keys: set<Slot>, n: NodeId, h: Hash)
    requires Slot(n, h) in keys <==> Listed(st, keep, Slot(n, h))
    ensures var a, b := Restricted(st, keys).inner, Persisted(st, keep).inner;
            && (n in a && h in a[n] <==> n in b && h in b[n])
            && (n in a && h in a[n] && n in b && h in b[n] ==> a[n][h] == b[n][h])
  {
    RestrictedIff(st, keys, n, h);
    PersistedIffListed(st, keep, n, h);
  }

  lemma ListedMetadata(st: Store, keep: string -> bool, keys: set<Slot>)
    requires KeysMatch(st) && forall k :: k in keys <==> Listed(st, keep, k)
    ensures Restricted(st, keys).metadata == Persisted(st, keep).metadata
    ensures Restricted(st, keys).tagIndex == Persisted(st, keep).tagIndex
  {
    AllListedHashes(st, keep, keys);
  }

  /** All listed slots together are the persisted part. */
  lemma ListedIsPersisted(st: Store, keep: string -> bool, keys: set<Slot>)
    requires KeysMatch(st) && forall k :: k in keys <==> Listed(st, keep, k)
    ensures Restricted(st, keys) == Persisted(st, keep)
  {
    ListedInner(st, keep, keys);
    ListedMetadata(st, keep, keys);
  }

  /** Loading a complete snapshot rebuilds exactly the persisted part of the
      store: series, metadata and index. */
  lemma RoundTrip(st: Store, keep: string -> bool, key: SeriesKey, order: seq<Slot>)
    requires Inv(st, key) && Complete(st, keep, order)
    ensures RestoreAll(EMPTY, key, Listing(st, keep, order)) == Persisted(st, keep)
  {
    RestoreListing(st, keep, key, order);
    HeldIsRestricted(RestoreAll(EMPTY, key, Listing(st, keep, order)), st, keep, key, ToSet(order));
    ListedIsPersisted(st, keep, ToSet(order));
  }

  // ---- Saving and loading ----

  /** The state `save_snapshot` writes out: collected, then compacted. */
  function BeforeSave(st: Store, minTs: int, threshold: int, interval: int): Store
  {
    Compact(Gc(st, minTs), threshold, interval)
  }

  lemma BeforeSaveInv(st: Store, key: SeriesKey, minTs: int, threshold: int, interval: int)
    requires Inv(st, key)
    ensures Inv(BeforeSave(st, minTs, threshold, interval), key)
  {
    GcKeepsInv(st, key, minTs);
    CompactKeepsInv(Gc(st, minTs), key, threshold, interval);
  }

  /** Every persisted series, node by node, in whatever order the maps yield. */
  method ListSeries(st: Store, keep: string -> bool) returns (order: seq<Slot>)
    ensures Complete(st, keep, order)
    ensures forall i, j :: 0 <= i < j < |order| ==> order[i] != order[j]
  {
    order := [];
    var todo := set n, h | n in st.inner && h in st.inner[n] :: Slot(n, h);
    ghost var all := todo;
    while todo != {}
      invariant todo <= all
      invariant AllListed(st, keep, order)
      invariant forall k :: k in order ==> k in all - todo
      invariant forall k :: k in all - todo && Listed(st, keep, k) ==> k in order
      invariant forall i, j :: 0 <= i < j < |order| ==> order[i] != order[j]
      decreases todo
    {
      var k :| k in todo;
      if Listed(st, keep, k) {
        assert k !in order;
        order := order + [k];
      }
      todo := todo - {k};
    }
    forall k | Listed(st, keep, k) ensures k in order {
      assert k == Slot(k.node, k.hash) && k in all;
    }
  }

  /** Save the series of the metrics that `keep` selects. */
  method SaveMetrics(storage: Storage, keep: string -> bool, gcAt: int, compactAt: int)
    returns (parts: seq<seq<Saved>>, ghost order: seq<Slot>)
    modifies storage
    ensures storage.State() == BeforeSave(old(storage.State()), gcAt - storage.limits.retentionSec * 1000,
                                          compactAt - 3600 * 1000, 60 * 1000)
    ensures Complete(storage.State(), keep, order) && Concat(parts) == Listing(storage.State(), keep, order)
    ensures forall i, j :: 0 <= i < j < |order| ==> order[i] != order[j]
    ensures forall i :: 0 <= i < |parts| ==> PartOk(parts[i])
  {
    storage.PerformGc(gcAt);
    storage.CompactOldPoints(compactAt, 3600, 60);
    var st := storage.State();
    var keys := ListSeries(st, keep);
    order := keys;
    parts := SplitParts(Listing(st, keep, keys));
  }

  method SaveSnapshot(storage: Storage, gcAt: int, compactAt: int)
    returns (parts: seq<seq<Saved>>, ghost order: seq<Slot>)
    modifies storage
    ensures storage.State() == BeforeSave(old(storage.State()), gcAt - storage.limits.retentionSec * 1000,
                                          compactAt - 3600 * 1000, 60 * 1000)
    ensures Complete(storage.State(), Persists(), order) && Concat(parts) == Listing(storage.State(), Persists(), order)
    ensures forall i, j :: 0 <= i < j < |order| ==> order[i] != order[j]
    ensures forall i :: 0 <= i < |parts| ==> PartOk(parts[i])
  {
    parts, order := SaveMetrics(storage, Persists(), gcAt, compactAt);
  }

  function Readable(parts: seq<Option<seq<Saved>>>): seq<Saved>
  {
    if parts == [] then [] else
      var last := parts[|parts| - 1];
      Readable(parts[..|parts| - 1]) + if last.Some? then last.value else []
  }

  lemma {:induction false} RestoreMore(st: Store, key: SeriesKey, a: seq<Saved>, b: seq<Saved>)
    ensures RestoreAll(st, key, a + b) == RestoreAll(RestoreAll(st, key, a), key, b)
  {
    if b == [] {
      assert a + b == a;
    } else {
      assert (a + b)[..|a + b| - 1] == a + b[..|b| - 1];
      RestoreMore(st, key, a, b[..|b| - 1]);
    }
  }

  /** Restore the readable parts series by series, skip the others, collect. */
  method LoadSnapshot(parts: seq<Option<seq<Saved>>>, key: SeriesKey, limits: Limits, now: int) returns (st: Store)
    ensures st == Gc(RestoreAll(EMPTY, key, Readable(parts)), now - limits.retentionSec * 1000)
  {
    st := EMPTY;
    for i := 0 to |parts|
      invariant st == RestoreAll(EMPTY, key, Readable(parts[..i]))
    {
      assert parts[..i + 1][..i] == parts[..i];
      if parts[i].Some? {
        RestoreMore(EMPTY, key, Readable(parts[..i]), parts[i].value);
        st := RestorePart(st, key, parts[i].value);
      } else {
        assert Readable(parts[..i + 1]) == Readable(parts[..i]);
      }
    }
    assert parts[..|parts|] == parts;
    st := Gc(st, now - limits.retentionSec * 1000);
  }

  method RestorePart(before: Store, key: SeriesKey, part: seq<Saved>) returns (st: Store)
    ensures st == RestoreAll(before, key, part)
  {
    st := before;
    for j := 0 to |part|
      invariant st == RestoreAll(before, key, part[..j])
    {
      assert part[..j + 1][..j] == part[..j];
      st := Restore(st, key, part[j]);
    }
    assert part[..|part|] == part;
  }

  function AllReadable(parts: seq<seq<Saved>>): seq<Option<seq<Saved>>>
  {
    seq(|parts|, i requires 0 <= i < |parts| => Some(parts[i]))
  }

  lemma {:induction false} ReadableConcat(parts: seq<seq<Saved>>)
    ensures Readable(AllReadable(parts)) == Concat(parts)
  {
    if parts != [] {
      ReadableConcat(parts[..|parts| - 1]);
      assert AllReadable(parts)[..|parts| - 1] == AllReadable(parts[..|parts| - 1]);
    }
  }

  /** Save, then load: the saved state restricted to the persisted metrics,
      trimmed by the load-time collection, with its invariant intact. */
  lemma SaveThenLoad(st: Store, keep: string -> bool, key: SeriesKey, minTs: int,
                     parts: seq<seq<Saved>>, order: seq<Slot>)
    requires Inv(st, key) && Complete(st, keep, order) && Concat(parts) == Listing(st, keep, order)
    ensures var loaded := Gc(RestoreAll(EMPTY, key, Readable(AllReadable(parts))), minTs);
            loaded == Gc(Persisted(st, keep), minTs) && Inv(loaded, key)
  {
    var r := RestoreAll(EMPTY, key, Listing(st, keep, order));
    ReadableConcat(parts);
    RestoreListing(st, keep, key, order);
    GcKeepsInv(r, key, minTs);
    RoundTrip(st, keep, key, order);
  }

  /** The saved parts with some of them unreadable. */
  function Lose(parts: seq<seq<Saved>>, lost: set<nat>): seq<Option<seq<Saved>>>
  {
    seq(|parts|, i requires 0 <= i < |parts| => if i in lost then None else Some(parts[i]))
  }

  /** The slots of the parts that are not lost. */
  function SurvivingSlots(order: seq<Slot>, parts: seq<seq<Saved>>, lost: set<nat>): seq<Slot>
    requires |order| == |Concat(parts)|
    decreases |parts|
  {
    if parts == [] then [] else
      var k := |parts| - 1;
      var n := |order| - |parts[k]|;
      SurvivingSlots(order[..n], parts[..k], lost) + if k in lost then [] else order[n..]
  }

  lemma ListingAppend(st: Store, keep: string -> bool, a: seq<Slot>, b: seq<Slot>)
    requires AllListed(st, keep, a) && AllListed(st, keep, b)
    ensures AllListed(st, keep, a + b) && Listing(st, keep, a + b) == Listing(st, keep, a) + Listing(st, keep, b)
  {
  }

  lemma {:induction false} SurvivingListed(st: Store, keep: string -> bool, order: seq<Slot>,
                                           parts: seq<seq<Saved>>, lost: set<nat>)
    requires AllListed(st, keep, order) && Concat(parts) == Listing(st, keep, order)
    ensures var kept := SurvivingSlots(order, parts, lost);
            && AllListed(st, keep, kept) && Readable(Lose(parts, lost)) == Listing(st, keep, kept)
            && (forall k :: k in kept ==> k in order) && (lost == {} ==> kept == order)
    decreases |parts|
  {
    if parts != [] {
      var k := |parts| - 1;
      var n := |order| - |parts[k]|;
      var head, tail := order[..n], order[n..];
      assert order == head + tail;
      ListingAppend(st, keep, head, tail);
      assert Concat(parts)[..n] == Concat(parts[..k]) && Concat(parts)[n..] == parts[k];
      assert Listing(st, keep, order)[..n] == Listing(st, keep, head);
      assert Listing(st, keep, order)[n..] == Listing(st, keep, tail);
      SurvivingListed(st, keep, head, parts[..k], lost);
      assert Lose(parts, lost)[..k] == Lose(parts[..k], lost);
      var kept := SurvivingSlots(head, parts[..k], lost);
      if k in lost {
        assert kept + [] == kept && Readable(Lose(parts, lost)) == Readable(Lose(parts[..k], lost));
      } else {
        ListingAppend(st, keep, kept, tail);
      }
    }
  }

  /** Lost parts cost their own series and nothing else: whatever parts of a
      saved listing cannot be read, the loaded store is the saved one restricted
      to the slots of the others and trimmed by the load-time collection. */
  lemma LoadWithLostParts(st: Store, keep: string -> bool, key: SeriesKey, minTs: int,
                          parts: seq<seq<Saved>>, order: seq<Slot>, lost: set<nat>)
    requires Inv(st, key) && Complete(st, keep, order) && Concat(parts) == Listing(st, keep, order)
    ensures var r := RestoreAll(EMPTY, key, Readable(Lose(parts, lost)));
            var kept := ToSet(SurvivingSlots(order, parts, lost));
            && HoldsExactly(r, st, keep, kept)
            && Gc(r, minTs) == Gc(Restricted(st, kept), minTs) && Inv(Gc(r, minTs), key)
  {
    var kept := SurvivingSlots(order, parts, lost);
    var r := RestoreAll(EMPTY, key, Readable(Lose(parts, lost)));
    SurvivingListed(st, keep, order, parts, lost);
    RestoreListing(st, keep, key, kept);
    HeldIsRestricted(r, st, keep, key, ToSet(kept));
    GcKeepsInv(r, key, minTs);
  }
}
