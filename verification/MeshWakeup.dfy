/** Long polls never miss a slot, with any number of pollers per device. */
module MeshWakeup {
  import opened Collections
  import opened MeshTables
  import opened MeshRelay
  import MeshDelivery

  // ---- Invariants ----

  ghost predicate Distinct(s: seq<nat>)
  {
    forall i, j :: 0 <= i < j < |s| ==> s[i] != s[j]
  }

  /** A line holds registered pollers of its channel, once each, and no permit
      is stored while someone is in line. */
  ghost predicate LinesSound(r: Relay)
  {
    && (forall c :: c in r.notifies ==>
          Distinct(r.notifies[c].waiters) && (r.notifies[c].permit ==> r.notifies[c].waiters == []))
    && (forall c, w :: c in r.notifies && w in r.notifies[c].waiters ==>
          w in r.pollers && r.pollers[w].chan == c && Registered(r.pollers[w].phase))
  }

  /** Every registered poller is in the line of its channel. */
  ghost predicate PollersInLine(r: Relay)
  {
    && (forall p :: p in r.pollers && !r.pollers[p].phase.Entered? ==> r.pollers[p].chan in r.notifies)
    && (forall p :: p in r.pollers && Registered(r.pollers[p].phase) ==>
          r.pollers[p].chan in r.notifies && p in r.notifies[r.pollers[p].chan].waiters)
  }

  /** The line of a channel holds exactly its registered, unsignalled waits,
      and a permit is stored only while nobody stands in line. */
  ghost predicate LinesOk(r: Relay) { LinesSound(r) && PollersInLine(r) }

  ghost predicate SomePending(r: Relay, c: Chan)
  {
    exists q :: q in r.pollers && r.pollers[q].chan == c && Pending(r.pollers[q].phase)
  }

  ghost predicate Asleep(r: Relay, p: nat)
  {
    p in r.pollers && r.pollers[p].phase == Waiting(Unsignalled)
  }

  /** While a poller sleeps, its inbox is empty, or the wake for it is on its
      way, or another poller of the device will empty it or pass its grant on. */
  ghost predicate NoLostWakeup(r: Relay)
  {
    forall p :: Asleep(r, p) ==>
      var c := r.pollers[p].chan;
      Inbox(r, c) == [] || r.waking == Some(c) || SomePending(r, c)
  }

  function PollersOf(r: Relay, c: Chan): set<nat>
  {
    set p | p in r.pollers && r.pollers[p].chan == c
  }

  /** The guard counts are the numbers of polls in flight, with no zero entries. */
  ghost predicate CountsOk(r: Relay)
  {
    forall c :: (if c in r.polls then r.polls[c] > 0 && r.polls[c] == |PollersOf(r, c)| else PollersOf(r, c) == {})
  }

  ghost predicate Inv(r: Relay)
  {
    LinesOk(r) && NoLostWakeup(r)
  }

  // ---- Waking ----

  lemma TailOfLine(ws: seq<nat>)
    requires Distinct(ws) && ws != []
    ensures Distinct(ws[1..]) && ws[0] in ws && forall x :: x in ws[1..] <==> x in ws && x != ws[0]
  {
    assert ws == [ws[0]] + ws[1..];
  }

  lemma NotifyOneLinesSound(r: Relay, c: Chan)
    requires LinesOk(r)
    ensures LinesSound(NotifyOne(r, c))
  {
    if c in r.notifies && r.notifies[c].waiters != [] {
      TailOfLine(r.notifies[c].waiters);
    }
  }

  lemma NotifyOneKeepsLines(r: Relay, c: Chan)
    requires LinesOk(r)
    ensures LinesOk(NotifyOne(r, c))
  {
    NotifyOneLinesSound(r, c);
    if c in r.notifies && r.notifies[c].waiters != [] {
      TailOfLine(r.notifies[c].waiters);
    }
  }

  /** A notification reaches a poller of the channel whenever one is in line,
      and never loses a pending one. */
  lemma NotifyOnePends(r: Relay, c: Chan)
    requires LinesOk(r)
    ensures c in r.notifies && r.notifies[c].waiters != [] ==> SomePending(NotifyOne(r, c), c)
    ensures forall x :: SomePending(r, x) ==> SomePending(NotifyOne(r, c), x)
    ensures forall p :: Asleep(NotifyOne(r, c), p) ==> Asleep(r, p)
    ensures forall p :: p in NotifyOne(r, c).pollers <==> p in r.pollers
    ensures forall p :: p in r.pollers ==> NotifyOne(r, c).pollers[p].chan == r.pollers[p].chan
  {
    var r' := NotifyOne(r, c);
    if c in r.notifies && r.notifies[c].waiters != [] {
      var w := r.notifies[c].waiters[0];
      assert w in r.notifies[c].waiters;
      assert r'.pollers[w].chan == c && Pending(r'.pollers[w].phase);
    }
    forall x | SomePending(r, x) ensures SomePending(r', x) {
      var q :| q in r.pollers && r.pollers[q].chan == x && Pending(r.pollers[q].phase);
      assert q in r'.pollers && r'.pollers[q].chan == x && Pending(r'.pollers[q].phase);
    }
  }

  lemma NotifyOneKeepsInboxes(r: Relay, c: Chan, x: Chan)
    ensures Inbox(NotifyOne(r, c), x) == Inbox(r, x) && NotifyOne(r, c).waking == r.waking
  {
  }

  lemma WakeKeepsInv(r: Relay)
    requires Inv(r) && r.waking.Some?
    ensures Inv(Apply(r, Wake))
  {
    var c := r.waking.value;
    var n := NotifyOne(r, c);
    var r' := n.(waking := None);
    NotifyOneKeepsLines(r, c);
    NotifyOnePends(r, c);
    assert LinesOk(r');
    forall p | Asleep(r', p)
      ensures Inbox(r', r'.pollers[p].chan) == [] || SomePending(r', r'.pollers[p].chan)
    {
      var x := r'.pollers[p].chan;
      NotifyOneKeepsInboxes(r, c, x);
      assert Asleep(n, p);
      assert SomePending(n, x) ==> SomePending(r', x);
      if x == c {
        assert p in r.notifies[c].waiters;
      }
    }
  }

  // ---- Calls that only touch the tables ----

  ghost predicate SameWaits(r: Relay, r': Relay)
  {
    r'.pollers == r.pollers && r'.notifies == r.notifies && r'.waking == r.waking && r'.polls == r.polls
  }

  lemma ShrinkingKeepsInv(r: Relay, r': Relay)
    requires Inv(r) && SameWaits(r, r')
    requires forall c :: Inbox(r, c) == [] ==> Inbox(r', c) == []
    ensures Inv(r')
  {
    forall p | Asleep(r', p)
      ensures var c := r'.pollers[p].chan;
              Inbox(r', c) == [] || r'.waking == Some(c) || SomePending(r', c)
    {
      assert Asleep(r, p);
      var c := r.pollers[p].chan;
      assert SomePending(r, c) ==> SomePending(r', c);
    }
  }

  lemma TickShrinks(r: Relay, now: int, c: Chan)
    requires r.clock <= now
    ensures Inbox(r, c) == [] ==> Inbox(Tick(r, now), c) == []
  {
    MeshDelivery.LiveShrinks(r.t.slots, c.uin, c.device, r.clock, now);
  }

  lemma DeliverShrinks(r: Relay, c: Chan, x: Chan)
    ensures Inbox(Deliver(r, c), c) == []
    ensures Inbox(r, x) == [] ==> Inbox(Deliver(r, c), x) == []
  {
    MeshDelivery.TakeSplits(r.t, c.uin, c.device, r.clock);
    if x != c {
      MeshDelivery.OtherInboxes(r.t, c.uin, c.device, x.uin, x.device, r.clock);
    }
  }

  lemma DeliverKeepsInv(r: Relay, c: Chan)
    requires Inv(r)
    ensures Inv(Deliver(r, c))
  {
    forall x ensures Inbox(r, x) == [] ==> Inbox(Deliver(r, c), x) == [] {
      DeliverShrinks(r, c, x);
    }
    ShrinkingKeepsInv(r, Deliver(r, c));
  }

  lemma GcKeepsInv(r: Relay)
    requires Inv(r)
    ensures Inv(Collect(r))
  {
    forall c ensures Inbox(Collect(r), c) == Inbox(r, c) {
      MeshDelivery.GcKeepsInbox(r, c);
    }
    ShrinkingKeepsInv(r, Collect(r));
  }

  lemma RegisterKeepsSlots(t: Tables, req: RegisterRequest, draws: Draws, now: int)
    ensures MeshTables.Register(t, req, draws, now).0.slots == t.slots
  {
  }

  lemma StoreKeepsInv(r: Relay, from: Uin, to: Uin, env: Envelope)
    requires Inv(r) && LockFree(r) && Admit(r.t, to, env, r.clock).Ok?
    ensures Inv(StoreOne(r, from, to, env))
  {
    var r' := StoreOne(r, from, to, env);
    forall p | Asleep(r', p)
      ensures var c := r'.pollers[p].chan;
              Inbox(r', c) == [] || r'.waking == Some(c) || SomePending(r', c)
    {
      assert Asleep(r, p);
      var c := r.pollers[p].chan;
      MeshDelivery.StoreInbox(r, from, to, env, c);
      assert SomePending(r, c) ==> SomePending(r', c);
    }
  }

  // ---- Poll steps ----

  /** Moving one poller between phases that are neither asleep nor in line
      keeps the invariant, as long as a pending poller stays pending or its
      inbox has been emptied. */
  lemma MoveKeepsInv(r: Relay, id: nat, phase: Phase)
    requires Inv(r) && id in r.pollers
    requires !Registered(r.pollers[id].phase) && !Registered(phase) && !phase.Entered?
    requires r.pollers[id].chan in r.notifies
    requires Pending(r.pollers[id].phase) ==> Pending(phase) || Inbox(r, r.pollers[id].chan) == []
    ensures Inv(SetPhase(r, id, phase))
  {
    var r' := SetPhase(r, id, phase);
    forall p | Asleep(r', p)
      ensures var c := r'.pollers[p].chan;
              Inbox(r', c) == [] || r'.waking == Some(c) || SomePending(r', c)
    {
      assert p != id && Asleep(r, p);
      var c := r.pollers[p].chan;
      if Inbox(r, c) != [] && SomePending(r, c) {
        var q :| q in r.pollers && r.pollers[q].chan == c && Pending(r.pollers[q].phase);
        assert q in r'.pollers && r'.pollers[q].chan == c && Pending(r'.pollers[q].phase);
      }
    }
  }

  /** Moving within the line keeps the invariant when the new sleeper's inbox is empty. */
  lemma MoveInLineKeepsInv(r: Relay, id: nat, phase: Phase)
    requires Inv(r) && id in r.pollers
    requires Registered(r.pollers[id].phase) && Registered(phase)
    requires phase.Waiting? ==> Inbox(r, r.pollers[id].chan) == []
    ensures Inv(SetPhase(r, id, phase))
  {
    var r' := SetPhase(r, id, phase);
    forall p | Asleep(r', p)
      ensures var c := r'.pollers[p].chan;
              Inbox(r', c) == [] || r'.waking == Some(c) || SomePending(r', c)
    {
      var c := r.pollers[p].chan;
      if p != id {
        assert Asleep(r, p);
      }
      if SomePending(r, c) {
        var q :| q in r.pollers && r.pollers[q].chan == c && Pending(r.pollers[q].phase);
        assert q in r'.pollers && r'.pollers[q].chan == c && Pending(r'.pollers[q].phase);
      }
    }
  }

  lemma EnterKeepsInv(r: Relay, id: nat, c: Chan)
    requires Inv(r) && id !in r.pollers
    ensures Inv(EnterStep(r, id, c))
  {
    var r' := EnterStep(r, id, c);
    forall p | Asleep(r', p)
      ensures var x := r'.pollers[p].chan;
              Inbox(r', x) == [] || r'.waking == Some(x) || SomePending(r', x)
    {
      assert p != id && Asleep(r, p);
      var x := r.pollers[p].chan;
      assert Inbox(r', x) == Inbox(r, x);
      if SomePending(r, x) {
        var q :| q in r.pollers && r.pollers[q].chan == x && Pending(r.pollers[q].phase);
        assert q in r'.pollers && r'.pollers[q].chan == x && Pending(r'.pollers[q].phase);
      }
    }
  }

  lemma AttachKeepsInv(r: Relay, id: nat)
    requires Inv(r) && id in r.pollers && r.pollers[id].phase.Entered?
    ensures Inv(AttachStep(r, id))
  {
    var c := r.pollers[id].chan;
    var r1 := if c in r.notifies then r else SetNotify(r, c, Notify(false, []));
    assert Inv(r1) by {
      forall p | Asleep(r1, p)
        ensures var x := r1.pollers[p].chan;
                Inbox(r1, x) == [] || r1.waking == Some(x) || SomePending(r1, x)
      {
        assert Asleep(r, p);
        assert Inbox(r1, r.pollers[p].chan) == Inbox(r, r.pollers[p].chan);
        assert SomePending(r, r.pollers[p].chan) ==> SomePending(r1, r.pollers[p].chan);
      }
    }
    MoveKeepsInv(r1, id, Attached);
  }

  lemma ArmKeepsInv(r: Relay, id: nat)
    requires Inv(r) && id in r.pollers && r.pollers[id].phase.Attached? && r.pollers[id].chan in r.notifies
    ensures Inv(ArmStep(r, id))
  {
    var r', c := ArmStep(r, id), r.pollers[id].chan;
    forall p | Asleep(r', p)
      ensures var x := r'.pollers[p].chan;
              Inbox(r', x) == [] || r'.waking == Some(x) || SomePending(r', x)
    {
      assert p != id && Asleep(r, p);
      var x := r.pollers[p].chan;
      assert Inbox(r', x) == Inbox(r, x);
      if SomePending(r, x) {
        var q :| q in r.pollers && r.pollers[q].chan == x && Pending(r.pollers[q].phase);
        assert q in r'.pollers && r'.pollers[q].chan == x && Pending(r'.pollers[q].phase);
      }
    }
    ArmKeepsLines(r, id);
  }

  lemma ArmKeepsLines(r: Relay, id: nat)
    requires LinesOk(r) && id in r.pollers && r.pollers[id].phase.Attached? && r.pollers[id].chan in r.notifies
    ensures LinesOk(ArmStep(r, id))
  {
    var r', c := ArmStep(r, id), r.pollers[id].chan;
    var n, n' := r.notifies[c], r'.notifies[c];
    assert id !in n.waiters;
    if !n.permit {
      assert n'.waiters == n.waiters + [id];
      assert forall w :: w in n'.waiters <==> w in n.waiters || w == id;
    }
  }

  lemma CheckKeepsInv(r: Relay, id: nat)
    requires Inv(r) && LockFree(r) && id in r.pollers && r.pollers[id].phase.Armed?
    ensures Inv(CheckStep(r, id))
  {
    var Poller(c, phase) := r.pollers[id];
    if Inbox(r, c) == [] {
      if phase.signal == Unsignalled {
        MoveInLineKeepsInv(r, id, Waiting(phase.signal));
      } else {
        MoveKeepsInv(r, id, Waiting(phase.signal));
      }
    } else {
      DeliverKeepsInv(r, c);
      DeliverShrinks(r, c, c);
      if phase.signal == Unsignalled {
        MoveInLineKeepsInv(Deliver(r, c), id, Served(phase.signal, Views(Inbox(r, c))));
      } else {
        MoveKeepsInv(Deliver(r, c), id, Served(phase.signal, Views(Inbox(r, c))));
      }
    }
  }

  lemma ServeKeepsInv(r: Relay, id: nat)
    requires Inv(r) && id in r.pollers && r.pollers[id].phase.Woken?
    ensures Inv(ServeStep(r, id))
  {
    var c := r.pollers[id].chan;
    DeliverKeepsInv(r, c);
    DeliverShrinks(r, c, c);
    MoveKeepsInv(Deliver(r, c), id, Served(Consumed, Views(Inbox(r, c))));
  }

  // ---- The end of a poll ----

  function Without(r: Relay, id: nat): Relay
    requires id in r.pollers
  {
    r.(pollers := r.pollers - {id}, polls := CountDown(r.polls, r.pollers[id].chan))
  }

  /** The line of the channel without the poller that goes. */
  function Shorter(r: Relay, id: nat): Relay
    requires id in r.pollers && r.pollers[id].chan in r.notifies
  {
    var c := r.pollers[id].chan;
    SetNotify(Without(r, id), c, r.notifies[c].(waiters := Filter(r.notifies[c].waiters, IsNot(id))))
  }

  lemma ShorterLinesSound(r: Relay, id: nat)
    requires LinesSound(r) && id in r.pollers && r.pollers[id].chan in r.notifies
    ensures LinesSound(Shorter(r, id))
  {
    var c := r.pollers[id].chan;
    var ws, r' := r.notifies[c].waiters, Shorter(r, id);
    FilterMembers(ws, IsNot(id));
    DistinctFilter(ws, IsNot(id));
    forall x, w | x in r'.notifies && w in r'.notifies[x].waiters
      ensures w in r'.pollers && r'.pollers[w].chan == x && Registered(r'.pollers[w].phase)
    {
      assert w in r.notifies[x].waiters && w != id;
    }
  }

  lemma ShorterInLine(r: Relay, id: nat)
    requires PollersInLine(r) && id in r.pollers && r.pollers[id].chan in r.notifies
    ensures PollersInLine(Shorter(r, id))
  {
    var c := r.pollers[id].chan;
    FilterMembers(r.notifies[c].waiters, IsNot(id));
  }

  lemma ExitUnsignalledKeepsLines(r: Relay, id: nat)
    requires LinesOk(r) && id in r.pollers && Registered(r.pollers[id].phase)
    ensures LinesOk(Exit(r, id))
  {
    ShorterLinesSound(r, id);
    ShorterInLine(r, id);
  }

  lemma {:induction false} DistinctFilter(s: seq<nat>, p: nat -> bool)
    requires Distinct(s)
    ensures Distinct(Filter(s, p))
  {
    if s != [] {
      var init := s[..|s| - 1];
      DistinctFilter(init, p);
      FilterMember(init, p, s[|s| - 1]);
    }
  }

  /** A poller that is not in line can go without disturbing the lines. */
  lemma WithoutKeepsLines(r: Relay, id: nat)
    requires LinesOk(r) && id in r.pollers && HasSignal(r.pollers[id].phase) && !Registered(r.pollers[id].phase)
    ensures LinesOk(Without(r, id))
  {
  }

  lemma ExitKeepsInv(r: Relay, id: nat)
    requires Inv(r) && id in r.pollers && HasSignal(r.pollers[id].phase)
    ensures Inv(Exit(r, id))
  {
    var Poller(c, phase) := r.pollers[id];
    var gone, r' := Without(r, id), Exit(r, id);
    if phase.signal == Unsignalled {
      ExitUnsignalledKeepsLines(r, id);
    } else {
      WithoutKeepsLines(r, id);
      if phase.signal == Granted {
        NotifyOneKeepsLines(gone, c);
      }
    }
    forall p | Asleep(r', p)
      ensures var x := r'.pollers[p].chan;
              Inbox(r', x) == [] || r'.waking == Some(x) || SomePending(r', x)
    {
      ExitKeepsSleeper(r, id, p);
    }
  }

  /** A poller still asleep after another's exit has lost no wakeup by it. */
  lemma ExitKeepsSleeper(r: Relay, id: nat, p: nat)
    requires Inv(r) && id in r.pollers && HasSignal(r.pollers[id].phase) && Asleep(Exit(r, id), p)
    ensures var r' := Exit(r, id);
            var x := r'.pollers[p].chan;
            Inbox(r', x) == [] || r'.waking == Some(x) || SomePending(r', x)
  {
    var Poller(c, phase) := r.pollers[id];
    var gone, r' := Without(r, id), Exit(r, id);
    if phase.signal == Granted {
      WithoutKeepsLines(r, id);
      NotifyOnePends(gone, c);
    }
    assert p != id && Asleep(r, p) && r'.pollers[p].chan == r.pollers[p].chan;
    var x := r.pollers[p].chan;
    ExitKeepsInbox(r, id, x);
    if SomePending(r, x) {
      if x == c && phase.signal == Granted {
        assert p in gone.notifies[c].waiters;
      } else {
        var q :| q in r.pollers && r.pollers[q].chan == x && Pending(r.pollers[q].phase);
        assert q != id;
        assert q in gone.pollers && gone.pollers[q].chan == x && Pending(gone.pollers[q].phase);
        assert SomePending(gone, x);
        if phase.signal != Granted {
          assert q in r'.pollers && r'.pollers[q] == r.pollers[q];
        }
      }
    }
  }

  lemma ExitKeepsInbox(r: Relay, id: nat, x: Chan)
    requires id in r.pollers && HasSignal(r.pollers[id].phase)
    ensures Inbox(Exit(r, id), x) == Inbox(r, x) && Exit(r, id).waking == r.waking
  {
  }

  // ---- Every step, every run ----

  lemma ApplyKeepsInv(r: Relay, op: Op)
    requires Inv(r) && Enabled(r, op)
    ensures Inv(Apply(r, op))
  {
    var r' := Apply(r, op);
    match op
    case Register(req, draws) =>
      RegisterKeepsSlots(r.t, req, draws, r.clock);
      ShrinkingKeepsInv(r, r');
    case Store(from, to, env) => StoreKeepsInv(r, from, to, env);
    case Wake => WakeKeepsInv(r);
    case Touch(device) => ShrinkingKeepsInv(r, r');
    case Pull(uin, ts, valid, d) =>
      var auth := Authenticate(r.t, uin, ts, d, r.clock);
      if auth.Ok? {
        DeliverKeepsInv(r, Chan(uin, auth.value));
        ShrinkingKeepsInv(Deliver(r, Chan(uin, auth.value)), r');
      }
    case Gc => GcKeepsInv(r);
    case Enter(id, uin, _, _, d) => EnterKeepsInv(r, id, Chan(uin, d.value));
    case Attach(id) => AttachKeepsInv(r, id);
    case Arm(id) => ArmKeepsInv(r, id);
    case Check(id) => CheckKeepsInv(r, id);
    case Resume(id) => MoveKeepsInv(r, id, Woken);
    case Serve(id) => ServeKeepsInv(r, id);
    case Finish(id) => ExitKeepsInv(r, id);
    case Leave(id) => ExitKeepsInv(r, id);
  }

  lemma {:induction false} RunKeepsInv(events: seq<Event>)
    ensures Inv(Run(events))
  {
    if events == [] {
    } else {
      var r, e := Run(events[..|events| - 1]), events[|events| - 1];
      RunKeepsInv(events[..|events| - 1]);
      var r0 := Tick(r, e.now);
      if r.clock <= e.now && Enabled(r0, e.op) {
        forall c ensures Inbox(r, c) == [] ==> Inbox(r0, c) == [] {
          TickShrinks(r, e.now, c);
        }
        ShrinkingKeepsInv(r, r0);
        ApplyKeepsInv(r0, e.op);
      }
    }
  }

  /** With one poll per device, a sleeping poller has nothing to receive,
      except in the instant between a slot's insert and its wake. */
  lemma SleeperHasEmptyInbox(events: seq<Event>, p: nat)
    requires Asleep(Run(events), p)
    requires forall q :: q in Run(events).pollers && Run(events).pollers[q].chan == Run(events).pollers[p].chan ==> q == p
    ensures var r := Run(events);
            Inbox(r, r.pollers[p].chan) == [] || r.waking == Some(r.pollers[p].chan)
  {
    RunKeepsInv(events);
  }

  /** And that instant ends with the poller signalled. */
  lemma WakeReachesSleeper(events: seq<Event>, p: nat)
    requires Asleep(Run(events), p) && Run(events).waking == Some(Run(events).pollers[p].chan)
    ensures var r := Run(events);
            SomePending(Apply(r, Wake), r.pollers[p].chan)
  {
    RunKeepsInv(events);
    var r := Run(events);
    var c := r.pollers[p].chan;
    NotifyOnePends(r, c);
    assert p in r.notifies[c].waiters;
    var n := NotifyOne(r, c);
    var q :| q in n.pollers && n.pollers[q].chan == c && Pending(n.pollers[q].phase);
    assert q in Apply(r, Wake).pollers;
  }

  // ---- Poll guards ----

  ghost predicate SameGuards(r: Relay, r': Relay)
  {
    r'.polls == r.polls && r'.pollers.Keys == r.pollers.Keys
    && forall p :: p in r.pollers ==> r'.pollers[p].chan == r.pollers[p].chan
  }

  lemma SameGuardsKeepsCounts(r: Relay, r': Relay)
    requires CountsOk(r) && SameGuards(r, r')
    ensures CountsOk(r')
  {
    forall c ensures PollersOf(r', c) == PollersOf(r, c) {}
  }

  lemma NotifyOneSameGuards(r: Relay, c: Chan)
    ensures SameGuards(r, NotifyOne(r, c))
  {
  }

  lemma OneMore(s: set<nat>, x: nat)
    requires x !in s
    ensures |s + {x}| == |s| + 1
  {
  }

  lemma EnterPollers(r: Relay, id: nat, c: Chan, x: Chan)
    requires id !in r.pollers
    ensures PollersOf(EnterStep(r, id, c), x) == if x == c then PollersOf(r, x) + {id} else PollersOf(r, x)
  {
    var now := EnterStep(r, id, c).pollers;
    forall p ensures p in now && now[p].chan == x <==> (p in r.pollers && r.pollers[p].chan == x) || (p == id && x == c) {}
  }

  lemma EnterCounts(r: Relay, id: nat, c: Chan)
    requires CountsOk(r) && id !in r.pollers
    ensures CountsOk(EnterStep(r, id, c))
  {
    var r' := EnterStep(r, id, c);
    forall x
      ensures if x in r'.polls then r'.polls[x] > 0 && r'.polls[x] == |PollersOf(r', x)| else PollersOf(r', x) == {}
    {
      EnterPollers(r, id, c, x);
      OneMore(PollersOf(r, x), id);
    }
  }

  lemma WithoutCounts(r: Relay, id: nat)
    requires CountsOk(r) && id in r.pollers
    ensures CountsOk(Without(r, id))
  {
    var r', c := Without(r, id), r.pollers[id].chan;
    assert id in PollersOf(r, c);
    forall x
      ensures if x in r'.polls then r'.polls[x] > 0 && r'.polls[x] == |PollersOf(r', x)| else PollersOf(r', x) == {}
    {
      if x == c {
        assert PollersOf(r', x) == PollersOf(r, x) - {id};
        assert |PollersOf(r', x)| == |PollersOf(r, x)| - 1;
      } else {
        assert PollersOf(r', x) == PollersOf(r, x);
      }
    }
  }

  lemma ExitCounts(r: Relay, id: nat)
    requires CountsOk(r) && id in r.pollers && HasSignal(r.pollers[id].phase)
    ensures CountsOk(Exit(r, id))
  {
    var gone := Without(r, id);
    WithoutCounts(r, id);
    NotifyOneSameGuards(gone, r.pollers[id].chan);
    SameGuardsKeepsCounts(gone, Exit(r, id));
  }

  lemma ApplyCounts(r: Relay, op: Op)
    requires CountsOk(r) && Enabled(r, op)
    ensures CountsOk(Apply(r, op))
  {
    match op
    case Enter(id, uin, _, _, d) => EnterCounts(r, id, Chan(uin, d.value));
    case Finish(id) => ExitCounts(r, id);
    case Leave(id) => ExitCounts(r, id);
    case Wake =>
      NotifyOneSameGuards(r, r.waking.value);
      SameGuardsKeepsCounts(r, Apply(r, op));
    case _ => SameGuardsKeepsCounts(r, Apply(r, op));
  }

  /** `polls` lists exactly the devices with a poll in flight, each with its number. */
  lemma {:induction false} RunCountsPolls(events: seq<Event>)
    ensures CountsOk(Run(events))
  {
    if events == [] {
    } else {
      var r, e := Run(events[..|events| - 1]), events[|events| - 1];
      RunCountsPolls(events[..|events| - 1]);
      var r0 := Tick(r, e.now);
      if r.clock <= e.now && Enabled(r0, e.op) {
        SameGuardsKeepsCounts(r, r0);
        ApplyCounts(r0, e.op);
      }
    }
  }
}
