/** What every run of the relay keeps about identities, inboxes and deliveries. */
module MeshDelivery {
  import opened Collections
  import opened MeshTables
  import opened MeshRelay

  function SerialOf(): Slot -> int { (s: Slot) => s.serial }

  // ---- Invariants ----

  /** Every device belongs to a known UIN, a subscription has one UIN, and
      every stored slot is addressed to a device of its UIN. */
  ghost predicate TablesOk(t: Tables)
  {
    && (forall k :: k in t.devices ==> t.devices[k].uin in t.identities)
    && (forall u, v :: u in t.identities && v in t.identities && t.identities[u].sub == t.identities[v].sub ==> u == v)
    && (forall s :: s in t.slots ==> s.device in t.devices && t.devices[s.device].uin == s.uin)
    && Increasing(t.slots, SerialOf())
    && (forall s :: s in t.slots ==> s.serial < t.serial)
  }

  function DeliveredSlots(ds: seq<Delivery>): seq<Slot>
  {
    seq(|ds|, i requires 0 <= i < |ds| => ds[i].slot)
  }

  /** The inserted slots are exactly the delivered, stored and dropped ones, counted. */
  ghost predicate Conserved(r: Relay)
  {
    multiset(r.inserted) ==
    multiset(DeliveredSlots(r.delivered)) + multiset(r.t.slots) + multiset(r.dropped)
  }

  ghost predicate Numbered(r: Relay)
  {
    |r.inserted| == r.t.serial && forall i :: 0 <= i < |r.inserted| ==> r.inserted[i].serial == i
  }

  ghost predicate WellAddressed(r: Relay)
  {
    forall d :: d in r.delivered ==>
      Addressed(d.slot, d.chan.uin, d.chan.device) && d.at < d.slot.expiresAt && d.at <= r.clock
      && d.slot.serial < r.t.serial
  }

  ghost predicate InOrder(r: Relay)
  {
    && (forall i, j :: 0 <= i < j < |r.delivered| && r.delivered[i].chan == r.delivered[j].chan ==>
          r.delivered[i].slot.serial < r.delivered[j].slot.serial)
    && (forall d, s :: d in r.delivered && s in Inbox(r, d.chan) ==> d.slot.serial < s.serial)
  }

  ghost predicate WithinCap(r: Relay)
  {
    forall c :: |Inbox(r, c)| <= MAX_SLOTS
  }

  ghost predicate DroppedExpired(r: Relay)
  {
    forall s :: s in r.dropped ==> s.expiresAt <= r.clock
  }

  ghost predicate Inv(r: Relay)
  {
    TablesOk(r.t) && Numbered(r) && Conserved(r) && WellAddressed(r) && InOrder(r) && WithinCap(r)
    && DroppedExpired(r)
  }

  // ---- Steps that leave the slots alone ----

  ghost predicate SameSlots(r: Relay, r': Relay)
  {
    r'.t.slots == r.t.slots && r'.t.serial == r.t.serial && r'.clock == r.clock && r'.inserted == r.inserted
    && r'.delivered == r.delivered && r'.dropped == r.dropped
  }

  lemma SameSlotsKeepsInv(r: Relay, r': Relay)
    requires Inv(r) && SameSlots(r, r') && TablesOk(r'.t)
    ensures Inv(r')
  {
    forall c ensures Inbox(r', c) == Inbox(r, c) {}
  }

  lemma TickKeepsInv(r: Relay, now: int)
    requires Inv(r) && r.clock <= now
    ensures Inv(Tick(r, now))
  {
    var r' := Tick(r, now);
    forall c ensures |Inbox(r', c)| <= |Inbox(r, c)| && forall s :: s in Inbox(r', c) ==> s in Inbox(r, c) {
      LiveShrinks(r.t.slots, c.uin, c.device, r.clock, now);
    }
  }

  lemma LiveShrinks(slots: seq<Slot>, uin: Uin, device: Key, now: int, later: int)
    requires now <= later
    ensures |Filter(slots, Live(uin, device, later))| <= |Filter(slots, Live(uin, device, now))|
    ensures forall s :: s in Filter(slots, Live(uin, device, later)) ==>
              s in Filter(slots, Live(uin, device, now))
  {
    FilterWeaker(slots, Live(uin, device, later), Live(uin, device, now));
    FilterMembers(slots, Live(uin, device, later));
    FilterMembers(slots, Live(uin, device, now));
  }

  // ---- Registration ----

  /** No device moves to another UIN and no UIN to another subscription. */
  ghost predicate Stable(t: Tables, t': Tables)
  {
    && (forall k :: k in t.devices ==> k in t'.devices && t'.devices[k].uin == t.devices[k].uin)
    && (forall u :: u in t.identities ==> u in t'.identities && t'.identities[u].sub == t.identities[u].sub)
  }

  lemma RenameKeepsSubs(identities: map<Uin, Identity>, uin: Uin, name: Option<string>)
    ensures var renamed := Rename(identities, uin, name);
            renamed.Keys == identities.Keys && forall u :: u in identities ==> renamed[u].sub == identities[u].sub
  {
  }

  lemma BindKnownDevice(t: Tables, device: Device, noise: Key, name: Option<string>, uin: Uin)
    requires TablesOk(t) && uin in t.identities && device.uin == uin
    requires noise in t.devices ==> t.devices[noise].uin == uin
    ensures var t' := t.(devices := t.devices[noise := device], identities := Rename(t.identities, uin, name));
            TablesOk(t') && Stable(t, t')
  {
    RenameKeepsSubs(t.identities, uin, name);
  }

  lemma BindNewUin(t: Tables, device: Device, noise: Key, identity: Identity, uin: Uin)
    requires TablesOk(t) && uin !in t.identities && noise !in t.devices && device.uin == uin
    requires forall u :: u in t.identities ==> t.identities[u].sub != identity.sub
    ensures var t' := t.(devices := t.devices[noise := device], identities := t.identities[uin := identity]);
            TablesOk(t') && Stable(t, t')
  {
  }

  lemma BindKeepsTables(t: Tables, sub: Sub, noise: Key, signing: Key, name: Option<string>,
                        draws: Draws, now: int)
    requires TablesOk(t)
    ensures var t' := Bind(t, sub, noise, signing, name, draws, now).0;
            TablesOk(t') && Stable(t, t') && t'.slots == t.slots && t'.serial == t.serial
  {
    if noise in t.devices {
      var d := t.devices[noise];
      BindKnownDevice(t, d.(signing := signing, lastSeen := now), noise, name, d.uin);
    } else if |UinsOf(t.identities, sub)| == 1 {
      var uin := TheUin(t.identities, sub);
      assert uin in UinsOf(t.identities, sub);
      BindKnownDevice(t, Device(uin, signing, now, now), noise, name, uin);
    } else {
      NoUinForSub(t, sub);
      IssuedUin(t.identities, draws);
      var issued := IssueUin(t.identities, draws);
      if issued.Ok? {
        var stored := if name.Some? then name.value else "";
        BindNewUin(t, Device(issued.value, signing, now, now), noise, Identity(sub, stored, now), issued.value);
      }
    }
  }

  /** A subscription that is bound at all is bound to one UIN. */
  lemma OneUin(t: Tables, u: Uin)
    requires TablesOk(t) && u in t.identities
    ensures UinsOf(t.identities, t.identities[u].sub) == {u}
  {
  }

  lemma NoUinForSub(t: Tables, sub: Sub)
    requires TablesOk(t) && |UinsOf(t.identities, sub)| != 1
    ensures forall u :: u in t.identities ==> t.identities[u].sub != sub
  {
    forall u | u in t.identities ensures t.identities[u].sub != sub {
      OneUin(t, u);
    }
  }

  lemma RegisterKeepsTables(t: Tables, req: RegisterRequest, draws: Draws, now: int)
    requires TablesOk(t)
    ensures var t' := MeshTables.Register(t, req, draws, now).0;
            TablesOk(t') && Stable(t, t') && t'.slots == t.slots && t'.serial == t.serial
  {
    match CheckRequest(req)
    case Err(_) =>
    case Ok(c) => BindKeepsTables(t, c.sub, c.noise, c.signing, req.name, draws, now);
  }

  // ---- Storing, delivering, collecting ----

  lemma InsertKeepsTables(t: Tables, uin: Uin, device: Key, from: Uin, ciphertext: string, now: int)
    requires TablesOk(t) && device in DevicesOf(t, uin)
    ensures TablesOk(InsertSlot(t, uin, device, from, ciphertext, now))
  {
    var s := NewSlot(t, uin, device, from, ciphertext, now);
    IncreasingSnoc(t.slots, s, SerialOf());
  }

  /** Inserting grows one inbox by the new slot and no other. */
  lemma InsertGrowsInbox(t: Tables, uin: Uin, device: Key, from: Uin, ciphertext: string, now: int)
    ensures forall u, d :: LiveSlots(InsertSlot(t, uin, device, from, ciphertext, now), u, d, now) ==
              LiveSlots(t, u, d, now) +
              if u == uin && d == device then [NewSlot(t, uin, device, from, ciphertext, now)] else []
  {
    var s := NewSlot(t, uin, device, from, ciphertext, now);
    forall u, d
      ensures LiveSlots(InsertSlot(t, uin, device, from, ciphertext, now), u, d, now) ==
              LiveSlots(t, u, d, now) + if u == uin && d == device then [s] else []
    {
      FilterSnoc(t.slots, s, Live(u, d, now));
    }
  }

  lemma StoreConserves(r: Relay, from: Uin, to: Uin, env: Envelope)
    requires Numbered(r) && Conserved(r) && Admit(r.t, to, env, r.clock).Ok?
    ensures Numbered(StoreOne(r, from, to, env)) && Conserved(StoreOne(r, from, to, env))
  {
    var r' := StoreOne(r, from, to, env);
    var s := r'.inserted[|r.inserted|];
    assert multiset(r'.inserted) == multiset(r.inserted) + multiset{s};
    assert multiset(r'.t.slots) == multiset(r.t.slots) + multiset{s};
  }

  lemma StoreInbox(r: Relay, from: Uin, to: Uin, env: Envelope, c: Chan)
    requires Admit(r.t, to, env, r.clock).Ok?
    ensures var r', pk := StoreOne(r, from, to, env), Admit(r.t, to, env, r.clock).value;
            Inbox(r', c) == Inbox(r, c) + if c == Chan(to, pk) then [r'.inserted[|r.inserted|]] else []
  {
    var pk := Admit(r.t, to, env, r.clock).value;
    InsertGrowsInbox(r.t, to, pk, from, env.ciphertext, r.clock);
  }

  lemma StoreKeepsOrder(r: Relay, from: Uin, to: Uin, env: Envelope)
    requires WellAddressed(r) && InOrder(r) && Admit(r.t, to, env, r.clock).Ok?
    ensures WellAddressed(StoreOne(r, from, to, env)) && InOrder(StoreOne(r, from, to, env))
  {
    var r' := StoreOne(r, from, to, env);
    forall d, x | d in r'.delivered && x in Inbox(r', d.chan) ensures d.slot.serial < x.serial {
      StoreInbox(r, from, to, env, d.chan);
      assert x in Inbox(r, d.chan) || x == r'.inserted[|r.inserted|];
    }
  }

  lemma StoreKeepsCap(r: Relay, from: Uin, to: Uin, env: Envelope)
    requires WithinCap(r) && Admit(r.t, to, env, r.clock).Ok?
    ensures WithinCap(StoreOne(r, from, to, env))
  {
    var r' := StoreOne(r, from, to, env);
    forall c ensures |Inbox(r', c)| <= MAX_SLOTS {
      StoreInbox(r, from, to, env, c);
      assert |Inbox(r, c)| <= MAX_SLOTS;
    }
  }

  lemma StoreKeepsInv(r: Relay, from: Uin, to: Uin, env: Envelope)
    requires Inv(r) && Admit(r.t, to, env, r.clock).Ok?
    ensures Inv(StoreOne(r, from, to, env))
  {
    var pk := Admit(r.t, to, env, r.clock).value;
    StoreConserves(r, from, to, env);
    InsertKeepsTables(r.t, to, pk, from, env.ciphertext, r.clock);
    StoreKeepsOrder(r, from, to, env);
    StoreKeepsCap(r, from, to, env);
  }

  lemma DeliveredAppend(a: seq<Delivery>, slots: seq<Slot>, c: Chan, at: int)
    ensures DeliveredSlots(a + Deliveries(slots, c, at)) == DeliveredSlots(a) + slots
  {
  }

  /** Taking an inbox removes exactly its live slots. */
  lemma TakeSplits(t: Tables, uin: Uin, device: Key, now: int)
    ensures multiset(LiveSlots(t, uin, device, now)) + multiset(Take(t, uin, device, now).slots) == multiset(t.slots)
    ensures LiveSlots(Take(t, uin, device, now), uin, device, now) == []
    ensures forall s :: s in Take(t, uin, device, now).slots ==> s in t.slots
  {
    var p, q := Live(uin, device, now), NotLive(uin, device, now);
    FilterPartition(t.slots, p, q);
    FilterMembers(t.slots, q);
    FilterNone(Filter(t.slots, q), p);
  }

  lemma OtherInboxes(t: Tables, uin: Uin, device: Key, uin': Uin, device': Key, now: int)
    requires !(uin == uin' && device == device')
    ensures LiveSlots(Take(t, uin, device, now), uin', device', now) == LiveSlots(t, uin', device', now)
  {
    var q, p := NotLive(uin, device, now), Live(uin', device', now);
    FilterTwice(t.slots, q, p, p);
  }

  /** A delivery is an old one, or one of the slots just taken. */
  lemma DeliveryOrigin(r: Relay, c: Chan, d: Delivery)
    requires d in Deliver(r, c).delivered
    ensures d in r.delivered || (d.chan == c && d.slot in Inbox(r, c) && d.at == r.clock)
  {
    var ds, n := Deliver(r, c).delivered, |r.delivered|;
    var k :| 0 <= k < |ds| && ds[k] == d;
    if k >= n {
      assert d == Deliveries(Inbox(r, c), c, r.clock)[k - n];
    } else {
      assert d == r.delivered[k];
    }
  }

  lemma DeliverWellAddressed(r: Relay, c: Chan)
    requires TablesOk(r.t) && WellAddressed(r)
    ensures WellAddressed(Deliver(r, c))
  {
    FilterMembers(r.t.slots, Live(c.uin, c.device, r.clock));
    forall d | d in Deliver(r, c).delivered
      ensures Addressed(d.slot, d.chan.uin, d.chan.device) && d.at < d.slot.expiresAt && d.at <= r.clock
              && d.slot.serial < r.t.serial
    {
      DeliveryOrigin(r, c, d);
    }
  }

  lemma DeliverInOrder(r: Relay, c: Chan, i: nat, j: nat)
    requires TablesOk(r.t) && InOrder(r)
    requires i < j < |Deliver(r, c).delivered|
    requires Deliver(r, c).delivered[i].chan == Deliver(r, c).delivered[j].chan
    ensures Deliver(r, c).delivered[i].slot.serial < Deliver(r, c).delivered[j].slot.serial
  {
    var ds, live, n := Deliver(r, c).delivered, Inbox(r, c), |r.delivered|;
    if i >= n {
      assert ds[i].slot == live[i - n] && ds[j].slot == live[j - n];
      FilterIncreasing(r.t.slots, Live(c.uin, c.device, r.clock), SerialOf());
      assert SerialOf()(live[i - n]) < SerialOf()(live[j - n]);
    } else if j >= n {
      assert ds[i] == r.delivered[i] && ds[j].slot == live[j - n] && ds[j].chan == c;
      assert ds[i] in r.delivered && ds[j].slot in Inbox(r, ds[i].chan);
    } else {
      assert ds[i] == r.delivered[i] && ds[j] == r.delivered[j];
    }
  }

  lemma DeliverKeepsOrder(r: Relay, c: Chan)
    requires TablesOk(r.t) && InOrder(r)
    ensures InOrder(Deliver(r, c))
  {
    var r' := Deliver(r, c);
    forall i, j | 0 <= i < j < |r'.delivered| && r'.delivered[i].chan == r'.delivered[j].chan
      ensures r'.delivered[i].slot.serial < r'.delivered[j].slot.serial
    {
      DeliverInOrder(r, c, i, j);
    }
    forall d, s | d in r'.delivered && s in Inbox(r', d.chan) ensures d.slot.serial < s.serial {
      if d.chan == c {
        TakeSplits(r.t, c.uin, c.device, r.clock);
      } else {
        OtherInboxes(r.t, c.uin, c.device, d.chan.uin, d.chan.device, r.clock);
        DeliveryOrigin(r, c, d);
      }
    }
  }

  lemma DeliverConserves(r: Relay, c: Chan)
    requires Conserved(r)
    ensures Conserved(Deliver(r, c))
  {
    TakeSplits(r.t, c.uin, c.device, r.clock);
    DeliveredAppend(r.delivered, Inbox(r, c), c, r.clock);
    assert multiset(DeliveredSlots(Deliver(r, c).delivered)) ==
           multiset(DeliveredSlots(r.delivered)) + multiset(Inbox(r, c));
  }

  lemma DeliverKeepsInv(r: Relay, c: Chan)
    requires Inv(r)
    ensures Inv(Deliver(r, c))
    ensures Inbox(Deliver(r, c), c) == []
  {
    var r' := Deliver(r, c);
    DeliverWellAddressed(r, c);
    DeliverKeepsOrder(r, c);
    DeliverConserves(r, c);
    TakeSplits(r.t, c.uin, c.device, r.clock);
    FilterIncreasing(r.t.slots, NotLive(c.uin, c.device, r.clock), SerialOf());
    forall x ensures |Inbox(r', x)| <= MAX_SLOTS {
      if x != c {
        OtherInboxes(r.t, c.uin, c.device, x.uin, x.device, r.clock);
        assert |Inbox(r, x)| <= MAX_SLOTS;
      }
    }
  }

  lemma GcConserves(r: Relay)
    requires Conserved(r)
    ensures Conserved(Collect(r))
  {
    FilterPartition(r.t.slots, Unexpired(r.clock), Expired(r.clock));
    assert multiset(Collect(r).dropped) == multiset(r.dropped) + multiset(Filter(r.t.slots, Expired(r.clock)));
  }

  lemma GcKeepsInbox(r: Relay, c: Chan)
    ensures Inbox(Collect(r), c) == Inbox(r, c)
  {
    var l := Live(c.uin, c.device, r.clock);
    FilterTwice(r.t.slots, Unexpired(r.clock), l, l);
  }

  lemma GcKeepsInv(r: Relay)
    requires Inv(r)
    ensures Inv(Collect(r))
  {
    GcConserves(r);
    FilterMembers(r.t.slots, Unexpired(r.clock));
    FilterMembers(r.t.slots, Expired(r.clock));
    FilterIncreasing(r.t.slots, Unexpired(r.clock), SerialOf());
    forall c ensures Inbox(Collect(r), c) == Inbox(r, c) {
      GcKeepsInbox(r, c);
    }
  }

  lemma TouchKeepsTables(t: Tables, device: Key, now: int)
    requires TablesOk(t)
    ensures TablesOk(MeshTables.Touch(t, device, now)) && Stable(t, MeshTables.Touch(t, device, now))
  {
  }

  // ---- Every step, every run ----

  predicate WaitOnly(op: Op)
  {
    op.Wake? || op.Attach? || op.Arm? || op.Resume? || op.Finish? || op.Leave?
  }

  lemma WaitOnlyKeepsTables(r: Relay, op: Op)
    requires Enabled(r, op) && WaitOnly(op)
    ensures SameSlots(r, Apply(r, op)) && Apply(r, op).t == r.t
  {
  }

  lemma ApplyExtends(r: Relay, op: Op)
    requires Enabled(r, op)
    ensures Apply(r, op).clock == r.clock
    ensures r.delivered <= Apply(r, op).delivered && r.inserted <= Apply(r, op).inserted
  {
    if WaitOnly(op) {
      WaitOnlyKeepsTables(r, op);
    }
  }

  lemma ApplyKeepsInv(r: Relay, op: Op)
    requires Inv(r) && Enabled(r, op)
    ensures Inv(Apply(r, op)) && Stable(r.t, Apply(r, op).t)
  {
    var r' := Apply(r, op);
    if WaitOnly(op) {
      WaitOnlyKeepsTables(r, op);
      SameSlotsKeepsInv(r, r');
    } else {
      match op
      case Register(req, draws) =>
        RegisterKeepsTables(r.t, req, draws, r.clock);
        SameSlotsKeepsInv(r, r');
      case Store(from, to, env) => StoreKeepsInv(r, from, to, env);
      case Touch(device) =>
        TouchKeepsTables(r.t, device, r.clock);
        SameSlotsKeepsInv(r, r');
      case Pull(uin, ts, valid, d) => PullKeepsInv(r, uin, ts, d);
      case Gc => GcKeepsInv(r);
      case Enter(_, uin, _, _, d) =>
        TouchKeepsTables(r.t, d.value, r.clock);
        SameSlotsKeepsInv(r, r');
      case Check(id) => CheckKeepsInv(r, id);
      case Serve(id) =>
        DeliverKeepsInv(r, r.pollers[id].chan);
        SameSlotsKeepsInv(Deliver(r, r.pollers[id].chan), r');
    }
  }

  lemma StepKeepsInv(r: Relay, e: Event)
    requires Inv(r)
    ensures Inv(Step(r, e)) && Stable(r.t, Step(r, e).t) && r.clock <= Step(r, e).clock
    ensures r.delivered <= Step(r, e).delivered && r.inserted <= Step(r, e).inserted
  {
    var r0 := Tick(r, e.now);
    if r.clock <= e.now && Enabled(r0, e.op) {
      TickKeepsInv(r, e.now);
      ApplyKeepsInv(r0, e.op);
      ApplyExtends(r0, e.op);
    }
  }

  lemma PullKeepsInv(r: Relay, uin: Uin, ts: int, d: Option<Key>)
    requires Inv(r)
    ensures Inv(PullStep(r, uin, ts, d)) && Stable(r.t, PullStep(r, uin, ts, d).t)
  {
    var auth := Authenticate(r.t, uin, ts, d, r.clock);
    if auth.Ok? {
      var r1 := Deliver(r, Chan(uin, auth.value));
      DeliverKeepsInv(r, Chan(uin, auth.value));
      TouchKeepsTables(r1.t, auth.value, r.clock);
      SameSlotsKeepsInv(r1, PullStep(r, uin, ts, d));
    }
  }

  lemma CheckKeepsInv(r: Relay, id: nat)
    requires Inv(r) && id in r.pollers && r.pollers[id].phase.Armed?
    ensures Inv(CheckStep(r, id)) && Stable(r.t, CheckStep(r, id).t)
  {
    var c := r.pollers[id].chan;
    if Inbox(r, c) == [] {
      SameSlotsKeepsInv(r, CheckStep(r, id));
    } else {
      DeliverKeepsInv(r, c);
      SameSlotsKeepsInv(Deliver(r, c), CheckStep(r, id));
    }
  }

  lemma {:induction false} RunKeepsInv(events: seq<Event>)
    ensures Inv(Run(events))
  {
    if events == [] {
    } else {
      RunKeepsInv(events[..|events| - 1]);
      StepKeepsInv(Run(events[..|events| - 1]), events[|events| - 1]);
    }
  }

  lemma {:induction false} RunPrefix(r: Relay, a: seq<Event>, b: seq<Event>)
    ensures RunFrom(r, a + b) == RunFrom(RunFrom(r, a), b)
  {
    if b == [] {
      assert a + b == a;
    } else {
      assert (a + b)[..|a + b| - 1] == a + b[..|b| - 1];
      RunPrefix(r, a, b[..|b| - 1]);
    }
  }

  lemma {:induction false} RunFromExtends(r: Relay, events: seq<Event>)
    requires Inv(r)
    ensures var r' := RunFrom(r, events);
            Inv(r') && Stable(r.t, r'.t) && r.delivered <= r'.delivered && r.inserted <= r'.inserted
  {
    if events != [] {
      var mid := RunFrom(r, events[..|events| - 1]);
      RunFromExtends(r, events[..|events| - 1]);
      StepKeepsInv(mid, events[|events| - 1]);
    }
  }

  // ---- Theorems over whole runs ----

  /** Each slot ever inserted is, at every point of every run, in exactly one
      place: delivered once, still stored, or dropped after it expired. */
  lemma SlotAccountedOnce(events: seq<Event>, k: nat)
    requires k < |Run(events).inserted|
    ensures var r := Run(events);
            var s := r.inserted[k];
            && s.serial == k
            && multiset(DeliveredSlots(r.delivered))[s] + multiset(r.t.slots)[s] + multiset(r.dropped)[s] == 1
  {
    RunKeepsInv(events);
    var r := Run(events);
    OccursOnce(r.inserted, k);
    assert multiset(r.inserted)[r.inserted[k]] == 1;
  }

  lemma {:induction false} OccursOnce(s: seq<Slot>, k: nat)
    requires k < |s|
    requires forall i :: 0 <= i < |s| ==> s[i].serial == i
    ensures multiset(s)[s[k]] == 1
  {
    var init, x := s[..|s| - 1], s[|s| - 1];
    assert s == init + [x];
    assert multiset(s) == multiset(init) + multiset{x};
    if k < |init| {
      OccursOnce(init, k);
      assert init[k] == s[k] && s[k] != x;
    } else {
      assert forall i :: 0 <= i < |init| ==> init[i] == s[i];
      assert x !in init;
    }
  }

  /** No slot is delivered twice. */
  lemma DeliveredAtMostOnce(events: seq<Event>, i: nat, j: nat)
    requires i < j < |Run(events).delivered|
    ensures Run(events).delivered[i].slot.serial != Run(events).delivered[j].slot.serial
  {
    RunKeepsInv(events);
    var r := Run(events);
    var ds := DeliveredSlots(r.delivered);
    var a, b := ds[i], ds[j];
    assert a in multiset(ds) && b in multiset(ds);
    assert a in multiset(r.inserted) && b in multiset(r.inserted);
    var x :| 0 <= x < |r.inserted| && r.inserted[x] == a;
    var y :| 0 <= y < |r.inserted| && r.inserted[y] == b;
    SlotAccountedOnce(events, x);
    if x == y {
      TwiceInSeq(ds, i, j);
    }
  }

  lemma TwiceInSeq(s: seq<Slot>, i: nat, j: nat)
    requires i < j < |s| && s[i] == s[j]
    ensures multiset(s)[s[i]] >= 2
  {
    assert s == s[..j] + s[j..];
    assert multiset(s) == multiset(s[..j]) + multiset(s[j..]);
    assert s[..j][i] == s[i] && s[j..][0] == s[j];
    assert s[i] in multiset(s[..j]) && s[i] in multiset(s[j..]);
  }

  /** Every delivery went to the device the slot was addressed to, before the
      slot expired; deliveries to one device come in the order sent. */
  lemma DeliveredInOrder(events: seq<Event>, i: nat, j: nat)
    requires i <= j < |Run(events).delivered|
    requires Run(events).delivered[i].chan == Run(events).delivered[j].chan
    ensures var d, e := Run(events).delivered[i], Run(events).delivered[j];
            && d.slot.uin == d.chan.uin && d.slot.device == d.chan.device
            && d.at < d.slot.expiresAt
            && (i < j ==> d.slot.serial < e.slot.serial)
  {
    RunKeepsInv(events);
    assert Run(events).delivered[i] in Run(events).delivered;
  }

  /** In every reachable state: a subscription has at most one UIN, every
      device and every stored slot belongs to a registered UIN, and no inbox
      holds more than 100 unexpired slots, whatever gc has left lying. */
  lemma ReachableTables(events: seq<Event>, c: Chan)
    ensures var r := Run(events);
            && (forall u, v :: u in r.t.identities && v in r.t.identities ==>
                  (r.t.identities[u].sub == r.t.identities[v].sub <==> u == v))
            && (forall s :: s in r.t.slots ==>
                  s.uin in r.t.identities && s.device in r.t.devices && r.t.devices[s.device].uin == s.uin)
            && |LiveSlots(r.t, c.uin, c.device, r.clock)| <= MAX_SLOTS
  {
    RunKeepsInv(events);
    assert |Inbox(Run(events), c)| <= MAX_SLOTS;
  }

  /** However a run continues, no noise key changes UIN, no UIN changes
      subscription, and no delivery is taken back. */
  lemma OwnersNeverChange(events: seq<Event>, more: seq<Event>)
    ensures Stable(Run(events).t, Run(events + more).t)
    ensures Run(events).delivered <= Run(events + more).delivered
  {
    RunKeepsInv(events);
    RunPrefix(START, events, more);
    RunFromExtends(Run(events), more);
  }

  /** What `register` promises of a known or new UIN: the device and the name
      are as requested, and nothing else has changed. */
  ghost predicate BoundTo(t: Tables, sub: Sub, noise: Key, signing: Key, name: Option<string>, now: int, t': Tables, u: Uin)
  {
    var known := noise in t.devices;
    && noise in t'.devices && u in t'.identities && t'.identities[u].sub == sub
    && t'.devices[noise] == Device(u, signing, now, if known then t.devices[noise].createdAt else now)
    && t'.identities[u].name == (if name.Some? then name.value else if u in t.identities then t.identities[u].name else "")
    && t'.identities[u].createdAt == (if u in t.identities then t.identities[u].createdAt else now)
    && (forall k :: k != noise ==>
          (k in t'.devices <==> k in t.devices) && (k in t.devices ==> t'.devices[k] == t.devices[k]))
    && (forall v :: v != u ==>
          (v in t'.identities <==> v in t.identities) && (v in t.identities ==> t'.identities[v] == t.identities[v]))
    && t'.slots == t.slots && t'.serial == t.serial
  }

  /** What `register` promises about the tables before and after. */
  ghost predicate Bound(t: Tables, sub: Sub, noise: Key, signing: Key, name: Option<string>, draws: Draws, now: int,
                        t': Tables, r: Result<Uin>)
    requires TablesOk(t)
  {
    && (r == Err(Conflict) <==> noise in t.devices && t.identities[t.devices[noise].uin].sub != sub)
    && match r
       case Ok(u) =>
         && BoundTo(t, sub, noise, signing, name, now, t', u)
         && (noise in t.devices ==> t.devices[noise].uin == u)
         && (forall v :: v in t.identities && t.identities[v].sub == sub ==> v == u)
         && (u !in t.identities ==> |u| == WidthFrom(t.identities, 5))
       case Err(e) =>
         && t' == t && (e == Conflict || e == Internal)
         && (e == Internal ==>
               noise !in t.devices &&
               forall i :: 0 <= i < |draws| ==> Candidate(WidthFrom(t.identities, 5), draws[i]) in t.identities)
  }

  lemma BindKnown(t: Tables, sub: Sub, noise: Key, signing: Key, name: Option<string>, draws: Draws, now: int)
    requires TablesOk(t) && noise in t.devices
    ensures var (t', r) := Bind(t, sub, noise, signing, name, draws, now);
            Bound(t, sub, noise, signing, name, draws, now, t', r)
  {
    RenameKeepsSubs(t.identities, t.devices[noise].uin, name);
  }

  lemma BindSubscribed(t: Tables, sub: Sub, noise: Key, signing: Key, name: Option<string>, draws: Draws, now: int)
    requires TablesOk(t) && noise !in t.devices && |UinsOf(t.identities, sub)| == 1
    ensures var (t', r) := Bind(t, sub, noise, signing, name, draws, now);
            Bound(t, sub, noise, signing, name, draws, now, t', r)
  {
    var uin := TheUin(t.identities, sub);
    assert uin in UinsOf(t.identities, sub);
    RenameKeepsSubs(t.identities, uin, name);
  }

  lemma BindFresh(t: Tables, sub: Sub, noise: Key, signing: Key, name: Option<string>, draws: Draws, now: int)
    requires TablesOk(t) && noise !in t.devices && |UinsOf(t.identities, sub)| != 1
    ensures var (t', r) := Bind(t, sub, noise, signing, name, draws, now);
            Bound(t, sub, noise, signing, name, draws, now, t', r)
  {
    IssuedUin(t.identities, draws);
    NoUinForSub(t, sub);
  }

  /** What a registration's answer means: the key is bound to the returned UIN
      and that UIN to the subscription, which keeps its UIN if it had one; a
      new UIN is unused and of the least uncrowded width; device and name are as
      requested and all else is as before.  Only a key already bound to another
      subscription conflicts. */
  lemma RegisterMeaning(t: Tables, sub: Sub, noise: Key, signing: Key, name: Option<string>,
                        draws: Draws, now: int)
    requires TablesOk(t)
    ensures var (t', r) := Bind(t, sub, noise, signing, name, draws, now);
            Bound(t, sub, noise, signing, name, draws, now, t', r)
  {
    if noise in t.devices {
      BindKnown(t, sub, noise, signing, name, draws, now);
    } else if |UinsOf(t.identities, sub)| == 1 {
      BindSubscribed(t, sub, noise, signing, name, draws, now);
    } else {
      BindFresh(t, sub, noise, signing, name, draws, now);
    }
  }

  /** `added` are the slots of the first envelopes, in their order. */
  ghost predicate SlotsFor(added: seq<Slot>, from: Uin, to: Uin, envs: seq<Envelope>, woken: seq<Key>, now: int)
  {
    && |added| == |woken| <= |envs|
    && forall k :: 0 <= k < |added| ==>
         && added[k].uin == to && added[k].from == from && added[k].ciphertext == envs[k].ciphertext
         && added[k].device == woken[k] && NormalizePubkey(envs[k].device) == Ok(woken[k])
         && added[k].expiresAt == now + 604800
  }

  lemma SlotsForCons(s: Slot, rest: seq<Slot>, from: Uin, to: Uin, envs: seq<Envelope>, pk: Key, woken: seq<Key>, now: int)
    requires envs != [] && SlotsFor(rest, from, to, envs[1..], woken, now)
    requires NormalizePubkey(envs[0].device) == Ok(pk)
    requires s.uin == to && s.from == from && s.ciphertext == envs[0].ciphertext && s.device == pk
    requires s.expiresAt == now + 604800
    ensures SlotsFor([s] + rest, from, to, envs, [pk] + woken, now)
  {
  }

  ghost predicate SendOutcome(t: Tables, from: Uin, to: Uin, envs: seq<Envelope>, now: int,
                              out: (Tables, Result<()>, seq<Key>), added: seq<Slot>)
  {
    && out.0 == t.(slots := t.slots + added, serial := t.serial + |added|)
    && SlotsFor(added, from, to, envs, out.2, now)
    && if out.1.Ok? then |added| == |envs|
       else |added| < |envs| && Admit(out.0, to, envs[|added|], now) == Err(out.1.error)
  }

  lemma SendOutcomeCons(t: Tables, from: Uin, to: Uin, envs: seq<Envelope>, now: int, pk: Key,
                        tail: (Tables, Result<()>, seq<Key>), rest: seq<Slot>)
    requires envs != [] && Admit(t, to, envs[0], now) == Ok(pk)
    requires SendOutcome(InsertSlot(t, to, pk, from, envs[0].ciphertext, now), from, to, envs[1..], now, tail, rest)
    ensures SendOutcome(t, from, to, envs, now, (tail.0, tail.1, [pk] + tail.2),
                        [NewSlot(t, to, pk, from, envs[0].ciphertext, now)] + rest)
  {
    var s := NewSlot(t, to, pk, from, envs[0].ciphertext, now);
    assert t.slots + ([s] + rest) == (t.slots + [s]) + rest;
    SlotsForCons(s, rest, from, to, envs, pk, tail.2, now);
  }

  /** A send stores the longest acceptable prefix of its envelopes, in order,
      and wakes each stored slot's device once; it fails exactly when an
      envelope is refused, with that envelope's error, and takes nothing back. */
  lemma {:induction false} StoredPrefix(t: Tables, from: Uin, to: Uin, envs: seq<Envelope>, now: int)
    returns (added: seq<Slot>)
    ensures SendOutcome(t, from, to, envs, now, StoreAll(t, from, to, envs, now), added)
    decreases |envs|
  {
    if envs == [] || Admit(t, to, envs[0], now).Err? {
      added := [];
      assert t.slots + added == t.slots;
    } else {
      var pk := Admit(t, to, envs[0], now).value;
      var t1 := InsertSlot(t, to, pk, from, envs[0].ciphertext, now);
      var rest := StoredPrefix(t1, from, to, envs[1..], now);
      SendOutcomeCons(t, from, to, envs, now, pk, StoreAll(t1, from, to, envs[1..], now), rest);
      added := [NewSlot(t, to, pk, from, envs[0].ciphertext, now)] + rest;
    }
  }

  /** The steps a `send` call amounts to: each stored envelope, then its wake. */
  function SendEvents(t: Tables, from: Uin, to: Uin, envs: seq<Envelope>, now: int): seq<Event>
    decreases |envs|
  {
    if envs == [] || Admit(t, to, envs[0], now).Err? then []
    else
      var t' := InsertSlot(t, to, Admit(t, to, envs[0], now).value, from, envs[0].ciphertext, now);
      [Event(Op.Store(from, to, envs[0]), now), Event(Wake, now)] + SendEvents(t', from, to, envs[1..], now)
  }

  lemma {:induction false} EnvelopesAreSteps(r: Relay, from: Uin, to: Uin, envs: seq<Envelope>, now: int)
    requires r.clock <= now && r.waking.None? && to in r.t.identities
    ensures var r' := RunFrom(r, SendEvents(r.t, from, to, envs, now));
            r'.t == StoreAll(r.t, from, to, envs, now).0 && r'.clock <= now && r'.waking.None?
    decreases |envs|
  {
    var events := SendEvents(r.t, from, to, envs, now);
    if events != [] {
      var e1, e2 := events[0], events[1];
      var r1 := Step(r, e1);
      assert r1 == StoreOne(Tick(r, now), from, to, envs[0]);
      var r2 := Step(r1, e2);
      assert r2.t == r1.t && r2.clock == now && r2.waking.None?;
      EnvelopesAreSteps(r2, from, to, envs[1..], now);
      var rest := SendEvents(r2.t, from, to, envs[1..], now);
      assert events == [e1, e2] + rest;
      RunPrefix(r, [e1, e2], rest);
      assert [e1, e2][..1] == [e1];
      assert RunFrom(r, []) == r && RunFrom(r, [e1]) == r1 && RunFrom(r, [e1, e2]) == r2;
    }
  }

  /** The steps of the whole call: none if a check fails, and the sender is
      touched only if every envelope was stored. */
  function CallEvents(t: Tables, from: Uin, to: Uin, envs: seq<Envelope>, ts: int, sender: Option<Key>, now: int): seq<Event>
  {
    if envs == [] || !TsOk(ts, now) || from !in t.identities || to !in t.identities || sender.None? then []
    else
      SendEvents(t, from, to, envs, now) +
      if StoreAll(t, from, to, envs, now).1.Ok? then [Event(Op.Touch(sender.value), now)] else []
  }

  lemma ThenTouch(r: Relay, stored: seq<Event>, device: Key, now: int)
    requires RunFrom(r, stored).clock <= now && RunFrom(r, stored).waking.None?
    ensures RunFrom(r, stored + [Event(Op.Touch(device), now)]).t == MeshTables.Touch(RunFrom(r, stored).t, device, now)
  {
    var r1, e := RunFrom(r, stored), Event(Op.Touch(device), now);
    assert (stored + [e])[..|stored|] == stored;
    assert RunFrom(r, stored + [e]) == Step(r1, e);
  }

  /** A whole `send` is a run of relay steps, so what holds over runs holds
      around every call, also one that fails part-way. */
  lemma SendIsSteps(r: Relay, from: Uin, to: Uin, envs: seq<Envelope>, ts: int, sender: Option<Key>, now: int)
    requires r.clock <= now && r.waking.None?
    ensures RunFrom(r, CallEvents(r.t, from, to, envs, ts, sender, now)).t ==
            MeshTables.Send(r.t, from, to, envs, ts, sender, now).0
  {
    if envs != [] && TsOk(ts, now) && from in r.t.identities && to in r.t.identities && sender.Some? {
      var stored := SendEvents(r.t, from, to, envs, now);
      EnvelopesAreSteps(r, from, to, envs, now);
      if StoreAll(r.t, from, to, envs, now).1.Ok? {
        ThenTouch(r, stored, sender.value, now);
      } else {
        assert stored + [] == stored;
      }
    }
  }
}
