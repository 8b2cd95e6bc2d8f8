/**
 Wake-ups are not invented: over every run, the signals that polls have used
 and those still waiting to be used are no more than the wakes.
 */
module MeshSignals {
  import opened Collections
  import opened MeshTables
  import opened MeshRelay

  /** Waits that hold a grant not yet used. */
  function Holders(r: Relay): set<nat>
  {
    set p | p in r.pollers && HasSignal(r.pollers[p].phase) && r.pollers[p].phase.signal == Granted
  }

  function Permits(r: Relay): set<Chan>
  {
    set c | c in r.notifies && r.notifies[c].permit
  }

  /** Signals not yet used. */
  function Unused(r: Relay): nat { |Holders(r)| + |Permits(r)| }

  /** The step uses a signal up: a wait takes the stored permit, or a sleeper
      wakes by its grant. */
  predicate Uses(r: Relay, op: Op)
  {
    match op
    case Arm(id) => id in r.pollers && r.pollers[id].chan in r.notifies && r.notifies[r.pollers[id].chan].permit
    case Resume(id) => id in r.pollers && r.pollers[id].phase == Waiting(Granted)
    case _ => false
  }

  lemma SetAdd<T>(a: set<T>, b: set<T>, x: T)
    requires b <= a + {x}
    ensures |b| <= |a| + 1
  {
    SubsetSize(b, a + {x});
  }

  lemma SubsetSize<T>(a: set<T>, b: set<T>)
    requires a <= b
    ensures |a| <= |b|
  {
    assert |b| == |a| + |b - a| by {
      assert b == a + (b - a);
    }
  }

  lemma SetLess<T>(a: set<T>, b: set<T>, x: T)
    requires x in a && b <= a - {x}
    ensures |b| + 1 <= |a|
  {
    SubsetSize(b, a - {x});
  }

  /** A notification makes at most one signal. */
  lemma NotifyMakesOne(r: Relay, c: Chan)
    ensures Unused(NotifyOne(r, c)) <= Unused(r) + 1
  {
    var r' := NotifyOne(r, c);
    if c in r.notifies {
      var n := r.notifies[c];
      if n.waiters == [] {
        assert Holders(r') == Holders(r);
        SetAdd(Permits(r), Permits(r'), c);
      } else {
        assert Permits(r') == Permits(r);
        SetAdd(Holders(r), Holders(r'), n.waiters[0]);
      }
    }
  }

  /** A poll that ends passes its unused grant on or takes it away with it. */
  lemma ExitMakesNone(r: Relay, id: nat)
    requires id in r.pollers && HasSignal(r.pollers[id].phase)
    ensures Unused(Exit(r, id)) <= Unused(r)
  {
    var c := r.pollers[id].chan;
    var gone := r.(pollers := r.pollers - {id}, polls := CountDown(r.polls, c));
    assert Permits(gone) == Permits(r);
    if r.pollers[id].phase.signal == Granted {
      SetLess(Holders(r), Holders(gone), id);
      NotifyMakesOne(gone, c);
    } else {
      var r' := Exit(r, id);
      assert Permits(r') == Permits(r);
      assert Holders(r') == Holders(r);
    }
  }

  /** Moving a poll that holds no grant to a phase without one changes nothing. */
  lemma SameSignals(r: Relay, r': Relay)
    requires Holders(r') <= Holders(r) && Permits(r') <= Permits(r)
    ensures Unused(r') <= Unused(r)
  {
    SubsetSize(Holders(r'), Holders(r));
    SubsetSize(Permits(r'), Permits(r));
  }

  lemma ArmUses(r: Relay, id: nat)
    requires id in r.pollers && r.pollers[id].phase.Attached? && r.pollers[id].chan in r.notifies
    ensures Unused(ArmStep(r, id)) + (if Uses(r, Arm(id)) then 1 else 0) <= Unused(r)
  {
    var r', c := ArmStep(r, id), r.pollers[id].chan;
    assert Holders(r') == Holders(r);
    if r.notifies[c].permit {
      SetLess(Permits(r), Permits(r'), c);
    } else {
      assert Permits(r') == Permits(r);
    }
  }

  lemma ResumeUses(r: Relay, id: nat)
    requires id in r.pollers && r.pollers[id].phase.Waiting?
    ensures Unused(SetPhase(r, id, Woken)) + (if Uses(r, Resume(id)) then 1 else 0) <= Unused(r)
  {
    var r' := SetPhase(r, id, Woken);
    assert Permits(r') == Permits(r);
    if r.pollers[id].phase.signal == Granted {
      SetLess(Holders(r), Holders(r'), id);
    } else {
      assert Holders(r') == Holders(r);
    }
  }

  lemma QuietMakesNone(r: Relay, op: Op)
    requires Enabled(r, op) && !op.Wake? && !op.Arm? && !op.Resume? && !op.Finish? && !op.Leave?
    ensures Unused(Apply(r, op)) <= Unused(r)
  {
    SameSignals(r, Apply(r, op));
  }

  lemma ApplyBalances(r: Relay, op: Op)
    requires Enabled(r, op)
    ensures Unused(Apply(r, op)) + (if Uses(r, op) then 1 else 0) <= Unused(r) + if op.Wake? then 1 else 0
  {
    match op
    case Wake =>
      NotifyMakesOne(r, r.waking.value);
      SameSignals(NotifyOne(r, r.waking.value), Apply(r, op));
    case Arm(id) => ArmUses(r, id);
    case Resume(id) => ResumeUses(r, id);
    case Finish(id) => ExitMakesNone(r, id);
    case Leave(id) => ExitMakesNone(r, id);
    case _ => QuietMakesNone(r, op);
  }

  predicate Happens(r: Relay, e: Event)
  {
    r.clock <= e.now && Enabled(Tick(r, e.now), e.op)
  }

  /** The wakes, and the signals used, in a run. */
  function Wakes(events: seq<Event>): nat
  {
    if events == [] then 0 else
      var n := |events| - 1;
      Wakes(events[..n]) + if Happens(Run(events[..n]), events[n]) && events[n].op.Wake? then 1 else 0
  }

  function UsedSignals(events: seq<Event>): nat
  {
    if events == [] then 0 else
      var n := |events| - 1;
      var r, e := Run(events[..n]), events[n];
      UsedSignals(events[..n]) + if Happens(r, e) && Uses(r, e.op) then 1 else 0
  }

  lemma {:induction false} NoInventedWakeups(events: seq<Event>)
    ensures UsedSignals(events) + Unused(Run(events)) <= Wakes(events)
  {
    if events != [] {
      var n := |events| - 1;
      var r, e := Run(events[..n]), events[n];
      NoInventedWakeups(events[..n]);
      if Happens(r, e) {
        var r0 := Tick(r, e.now);
        assert Holders(r0) == Holders(r) && Permits(r0) == Permits(r);
        ApplyBalances(r0, e.op);
      }
    } else {
      assert Holders(START) == {} && Permits(START) == {};
    }
  }

  /** Each wake belongs to one stored envelope. */
  lemma {:induction false} WakesAreInserts(events: seq<Event>)
    ensures Wakes(events) + (if Run(events).waking.Some? then 1 else 0) == |Run(events).inserted|
  {
    if events != [] {
      var n := |events| - 1;
      WakesAreInserts(events[..n]);
      WakeStep(Run(events[..n]), events[n]);
    }
  }

  lemma WakeStep(r: Relay, e: Event)
    ensures var r' := Step(r, e);
            |r'.inserted| + (if r.waking.Some? then 1 else 0) ==
            |r.inserted| + (if r'.waking.Some? then 1 else 0) + if Happens(r, e) && e.op.Wake? then 1 else 0
  {
    if Happens(r, e) {
      var r0 := Tick(r, e.now);
      if !e.op.Wake? && !e.op.Store? {
        OtherStepsInsertNothing(r0, e.op);
      }
    }
  }

  lemma OtherStepsInsertNothing(r: Relay, op: Op)
    requires Enabled(r, op) && !op.Wake? && !op.Store?
    ensures Apply(r, op).inserted == r.inserted && Apply(r, op).waking == r.waking
  {
  }

  /** So at most one signal is used for each envelope ever stored: a poll that
      is woken was woken by a message of its own or by one passed on. */
  lemma SignalsAreMessages(events: seq<Event>)
    ensures UsedSignals(events) + Unused(Run(events)) <= |Run(events).inserted|
  {
    NoInventedWakeups(events);
    WakesAreInserts(events);
  }
}
