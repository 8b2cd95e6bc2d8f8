/** The relay's store: the tables as mutable fields, the calls as methods. */
module MeshStore {
  import opened Collections
  import opened MeshTables

  function RowidOf(): Slot -> int { (s: Slot) => s.rowid }

  function NotRow(id: nat): Slot -> bool { (s: Slot) => s.rowid != id }

  function NotRows(ids: seq<nat>): Slot -> bool { (s: Slot) => s.rowid !in ids }

  function Rowids(slots: seq<Slot>): seq<nat>
  {
    seq(|slots|, i requires 0 <= i < |slots| => slots[i].rowid)
  }

  class Store {
    var identities: map<Uin, Identity>
    var devices: map<Key, Device>
    var slots: seq<Slot>
    var serial: nat

    function State(): Tables
      reads this
    {
      Tables(identities, devices, slots, serial)
    }

    /** Rows sit in rowid order and rowids are distinct. */
    ghost predicate Valid()
      reads this
    {
      Increasing(slots, RowidOf())
    }

    constructor ()
      ensures State() == EMPTY && Valid()
    {
      identities, devices, slots, serial := map[], map[], [], 0;
    }

    /** Widen from 5 digits while the width is crowded, then try the draws in turn. */
    method IssueUin(draws: Draws) returns (r: Result<Uin>)
      ensures r == MeshTables.IssueUin(identities, draws)
    {
      var width := 5;
      while true
        invariant 5 <= width <= 10
        invariant WidthFrom(identities, 5) == WidthFrom(identities, width)
        decreases 10 - width
      {
        var next := ChooseWidth(Occupancy(identities, width), width);
        if next == width {
          break;
        }
        width := next;
      }
      for i := 0 to |draws|
        invariant FirstFree(identities, width, draws) == FirstFree(identities, width, draws[i..])
      {
        var uin := Candidate(width, draws[i]);
        if uin !in identities {
          return Ok(uin);
        }
        assert draws[i..][1..] == draws[i + 1..];
      }
      r := Err(Internal);
    }

    method Register(req: RegisterRequest, draws: Draws, now: int) returns (r: Result<Uin>)
      requires Valid()
      modifies this
      ensures Valid()
      ensures (State(), r) == MeshTables.Register(old(State()), req, draws, now)
    {
      var sub := ParseSubscription(req.id, req.secret);
      if sub.Err? {
        return Err(sub.error);
      }
      if req.allows.None? {
        return Err(Internal);
      }
      if !req.allows.value {
        return Err(SubscriptionRejected);
      }
      var noise := NormalizePubkey(req.noise);
      if noise.Err? {
        return Err(noise.error);
      }
      var signing := NormalizePubkey(req.signing);
      if signing.Err? {
        return Err(signing.error);
      }
      if req.name.Some? && !NameOk(req.name.value) {
        return Err(BadInput);
      }
      var key := noise.value;
      if key in devices && devices[key].uin in identities {
        var uin := devices[key].uin;
        if identities[uin].sub != sub.value {
          return Err(Conflict);
        }
        devices := devices[key := devices[key].(signing := signing.value, lastSeen := now)];
        identities := Rename(identities, uin, req.name);
        return Ok(uin);
      }
      if |UinsOf(identities, sub.value)| == 1 {
        var uin := TheUin(identities, sub.value);
        devices := devices[key := Device(uin, signing.value, now, now)];
        identities := Rename(identities, uin, req.name);
        return Ok(uin);
      }
      r := IssueUin(draws);
      if r.Ok? {
        var stored := if req.name.Some? then req.name.value else "";
        identities := identities[r.value := Identity(sub.value, stored, now)];
        devices := devices[key := Device(r.value, signing.value, now, now)];
      }
    }

    /** Try the devices of `uin` until one verifies the request. */
    method MatchDevice(uin: Uin, valid: set<Key>) returns (d: Option<Key>)
      ensures Matches(State(), uin, valid, d)
    {
      var rest := DevicesOf(State(), uin);
      while rest != {}
        invariant rest <= DevicesOf(State(), uin)
        invariant forall k :: k in DevicesOf(State(), uin) - rest ==> devices[k].signing !in valid
        decreases rest
      {
        var k :| k in rest;
        if devices[k].signing in valid {
          return Some(k);
        }
        rest := rest - {k};
      }
      d := None;
    }

    /** The rows of a device's inbox that are still live, in rowid order. */
    method SelectLive(uin: Uin, device: Key, now: int) returns (ids: seq<nat>, views: seq<SlotView>)
      ensures views == Views(LiveSlots(State(), uin, device, now))
      ensures ids == Rowids(LiveSlots(State(), uin, device, now))
    {
      ids, views := [], [];
      var p := Live(uin, device, now);
      for i := 0 to |slots|
        invariant views == Views(Filter(slots[..i], p))
        invariant ids == Rowids(Filter(slots[..i], p))
      {
        assert slots[..i + 1] == slots[..i] + [slots[i]];
        FilterSnoc(slots[..i], slots[i], p);
        if p(slots[i]) {
          ids := ids + [slots[i].rowid];
          views := views + [SlotView(slots[i].from, slots[i].ciphertext)];
        }
      }
      assert slots[..|slots|] == slots;
    }

    method DeleteRows(ids: seq<nat>)
      modifies this`slots
      ensures slots == Filter(old(slots), NotRows(ids))
    {
      FilterAll(slots, NotRows(ids[..0]));
      for k := 0 to |ids|
        invariant slots == Filter(old(slots), NotRows(ids[..k]))
      {
        slots := Filter(slots, NotRow(ids[k]));
        FilterTwice(old(slots), NotRows(ids[..k]), NotRow(ids[k]), NotRows(ids[..k + 1]));
      }
      assert ids[..|ids|] == ids;
    }

    /** Select the live rows in rowid order, then delete them one rowid at a time. */
    method TakeSlots(uin: Uin, device: Key, now: int) returns (views: seq<SlotView>)
      requires Valid()
      modifies this`slots
      ensures Valid()
      ensures State() == Take(old(State()), uin, device, now)
      ensures views == Views(LiveSlots(old(State()), uin, device, now))
    {
      var ids;
      ids, views := SelectLive(uin, device, now);
      LiveRows(slots, uin, device, now);
      FilterCongruent(slots, NotRows(ids), NotLive(uin, device, now));
      FilterIncreasing(slots, NotLive(uin, device, now), RowidOf());
      DeleteRows(ids);
    }

    method StoreEnvelope(from: Uin, to: Uin, env: Envelope, now: int) returns (pk: Result<Key>)
      requires Valid()
      modifies this`slots, this`serial
      ensures Valid()
      ensures pk == Admit(old(State()), to, env, now)
      ensures State() == if pk.Ok? then InsertSlot(old(State()), to, pk.value, from, env.ciphertext, now) else old(State())
    {
      pk := Admit(State(), to, env, now);
      if pk.Ok? {
        var slot := NewSlot(State(), to, pk.value, from, env.ciphertext, now);
        InsertKeepsOrder(slots, slot);
        slots, serial := slots + [slot], serial + 1;
      }
    }

    /** Envelope by envelope, with no transaction around the loop. */
    method StoreEnvelopes(from: Uin, to: Uin, envs: seq<Envelope>, now: int)
      returns (r: Result<()>, woken: seq<Key>)
      requires Valid()
      modifies this`slots, this`serial
      ensures Valid()
      ensures (State(), r, woken) == StoreAll(old(State()), from, to, envs, now)
    {
      ghost var all := StoreAll(State(), from, to, envs, now);
      woken := [];
      assert envs[0..] == envs;
      for i := 0 to |envs|
        invariant Valid()
        invariant Continues(all, woken, StoreAll(State(), from, to, envs[i..], now))
      {
        StoreAllStep(State(), from, to, envs, i, now, all, woken);
        var pk := StoreEnvelope(from, to, envs[i], now);
        if pk.Err? {
          return Err(pk.error), woken;
        }
        woken := woken + [pk.value];
      }
      r := Ok(());
      assert envs[|envs|..] == [] && woken + [] == woken;
    }

    method Send(from: Uin, to: Uin, envs: seq<Envelope>, ts: int, valid: set<Key>, now: int)
      returns (r: Result<()>, woken: seq<Key>, ghost sender: Option<Key>)
      requires Valid()
      modifies this
      ensures Valid()
      ensures Matches(old(State()), from, valid, sender)
      ensures (State(), r, woken) == MeshTables.Send(old(State()), from, to, envs, ts, sender, now)
    {
      woken := [];
      var device := MatchDevice(from, valid);
      sender := device;
      if envs == [] {
        r := Err(BadInput);
      } else if !TsOk(ts, now) {
        r := Err(BadTimestamp);
      } else if from !in identities || to !in identities {
        r := Err(UnknownUin);
      } else if device.None? {
        r := Err(BadSignature);
      } else {
        r, woken := StoreEnvelopes(from, to, envs, now);
        if r.Ok? {
          devices := Touch(State(), device.value, now).devices;
        }
      }
    }

    method Pull(uin: Uin, ts: int, valid: set<Key>, now: int)
      returns (r: Result<seq<SlotView>>, ghost d: Option<Key>)
      requires Valid()
      modifies this
      ensures Valid()
      ensures Matches(old(State()), uin, valid, d)
      ensures (State(), r) == MeshTables.Pull(old(State()), uin, ts, d, now)
    {
      var device := MatchDevice(uin, valid);
      d := device;
      var auth := Authenticate(State(), uin, ts, device, now);
      if auth.Err? {
        return Err(auth.error), d;
      }
      var views := TakeSlots(uin, auth.value, now);
      devices := Touch(State(), auth.value, now).devices;
      r := Ok(views);
    }

    method Gc(now: int)
      requires Valid()
      modifies this`slots
      ensures Valid()
      ensures State() == MeshTables.Gc(old(State()), now)
    {
      FilterIncreasing(slots, Unexpired(now), RowidOf());
      slots := Filter(slots, Unexpired(now));
    }
  }

  /** The rowids of the live rows single out exactly the live rows. */
  lemma LiveRows(slots: seq<Slot>, uin: Uin, device: Key, now: int)
    requires Increasing(slots, RowidOf())
    ensures var ids := Rowids(Filter(slots, Live(uin, device, now)));
            forall s :: s in slots ==> NotRows(ids)(s) == NotLive(uin, device, now)(s)
  {
    var live := Filter(slots, Live(uin, device, now));
    var ids := Rowids(live);
    FilterMembers(slots, Live(uin, device, now));
    forall s | s in slots ensures NotRows(ids)(s) == NotLive(uin, device, now)(s) {
      if Live(uin, device, now)(s) {
        assert s in live;
        var j :| 0 <= j < |live| && live[j] == s;
        assert ids[j] == s.rowid;
      }
      if s.rowid in ids {
        var j :| 0 <= j < |ids| && ids[j] == s.rowid;
        assert live[j] in slots;
        SameRow(slots, live[j], s);
        assert s in live;
      }
    }
  }

  lemma SameRow(slots: seq<Slot>, x: Slot, y: Slot)
    requires Increasing(slots, RowidOf()) && x in slots && y in slots && x.rowid == y.rowid
    ensures x == y
  {
    var a :| 0 <= a < |slots| && slots[a] == x;
    var b :| 0 <= b < |slots| && slots[b] == y;
    assert !(a < b) && !(b < a);
  }

  // The outcome of the envelope loop: tables, result, devices woken.
  type Stored = (Tables, Result<()>, seq<Key>)

  /** `rest` is what remains of `all` once `woken` have been stored for. */
  ghost predicate Continues(all: Stored, woken: seq<Key>, rest: Stored)
  {
    all.0 == rest.0 && all.1 == rest.1 && all.2 == woken + rest.2
  }

  lemma StoreAllStep(t: Tables, from: Uin, to: Uin, envs: seq<Envelope>, i: nat, now: int, all: Stored, woken: seq<Key>)
    requires i < |envs| && Continues(all, woken, StoreAll(t, from, to, envs[i..], now))
    ensures var pk := Admit(t, to, envs[i], now);
            if pk.Err? then all == (t, Err(pk.error), woken)
            else Continues(all, woken + [pk.value],
                           StoreAll(InsertSlot(t, to, pk.value, from, envs[i].ciphertext, now), from, to, envs[i + 1..], now))
  {
    assert envs[i..][0] == envs[i] && envs[i..][1..] == envs[i + 1..];
    var pk := Admit(t, to, envs[i], now);
    if pk.Err? {
      assert woken + [] == woken;
    } else {
      var rest := StoreAll(InsertSlot(t, to, pk.value, from, envs[i].ciphertext, now), from, to, envs[i + 1..], now);
      assert woken + ([pk.value] + rest.2) == (woken + [pk.value]) + rest.2;
    }
  }

  lemma InsertKeepsOrder(slots: seq<Slot>, s: Slot)
    requires Increasing(slots, RowidOf())
    requires s.rowid == NextRowid(slots)
    ensures Increasing(slots + [s], RowidOf())
  {
    forall x | x in slots ensures RowidOf()(x) < RowidOf()(s) {
      var i :| 0 <= i < |slots| && slots[i] == x;
      if i < |slots| - 1 {
        assert RowidOf()(slots[i]) < RowidOf()(slots[|slots| - 1]);
      }
    }
    IncreasingSnoc(slots, s, RowidOf());
  }
}
