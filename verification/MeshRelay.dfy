/**
 The relay as a state machine: table calls, the two halves of each stored
 envelope (insert, then wake), and the steps of every long poll, in any
 interleaving.  A call that holds the connection mutex is one step; `send`
 holds it across several, so `waking` marks the mutex as held between an
 insert and its wake.  `inserted`, `delivered` and `dropped` are histories.
 */
module MeshRelay {
  import opened Collections
  import opened MeshTables

  datatype Chan = Chan(uin: Uin, device: Key)
  datatype Delivery = Delivery(slot: Slot, chan: Chan, at: int)

  /** What a registered wait has received: nothing, a grant from `notify_one`
      (passed on if the wait is dropped), or a stored permit (used up at once). */
  datatype Signal = Unsignalled | Granted | Consumed

  /** `Entered` holds the poll guard, `Attached` the notify handle, `Armed` has
      enabled its wait, `Waiting` found the inbox empty, `Woken` saw its signal,
      `Served` has its answer but has not yet dropped its wait. */
  datatype Phase =
    | Entered
    | Attached
    | Armed(signal: Signal)
    | Waiting(signal: Signal)
    | Woken
    | Served(signal: Signal, answer: seq<SlotView>)

  datatype Poller = Poller(chan: Chan, phase: Phase)
  datatype Notify = Notify(permit: bool, waiters: seq<nat>)

  datatype Relay = Relay(t: Tables, clock: int, inserted: seq<Slot>, delivered: seq<Delivery>,
                         dropped: seq<Slot>, waking: Option<Chan>, notifies: map<Chan, Notify>,
                         pollers: map<nat, Poller>, polls: map<Chan, nat>)

  datatype Op =
    | Register(req: RegisterRequest, draws: Draws)
    | Store(from: Uin, to: Uin, env: Envelope)
    | Wake
    | Touch(device: Key)
    | Pull(uin: Uin, ts: int, valid: set<Key>, d: Option<Key>)
    | Gc
    | Enter(id: nat, uin: Uin, ts: int, valid: set<Key>, d: Option<Key>)
    | Attach(id: nat)
    | Arm(id: nat)
    | Check(id: nat)
    | Resume(id: nat)
    | Serve(id: nat)
    | Finish(id: nat)
    | Leave(id: nat)

  datatype Event = Event(op: Op, now: int)

  const START := Relay(EMPTY, 0, [], [], [], None, map[], map[], map[])

  // ---- Steps ----

  function Inbox(r: Relay, c: Chan): seq<Slot>
  {
    LiveSlots(r.t, c.uin, c.device, r.clock)
  }

  function Deliveries(slots: seq<Slot>, c: Chan, at: int): seq<Delivery>
  {
    seq(|slots|, i requires 0 <= i < |slots| => Delivery(slots[i], c, at))
  }

  function Deliver(r: Relay, c: Chan): Relay
  {
    r.(t := MeshTables.Take(r.t, c.uin, c.device, r.clock),
       delivered := r.delivered + Deliveries(Inbox(r, c), c, r.clock))
  }

  function SetPhase(r: Relay, id: nat, phase: Phase): Relay
    requires id in r.pollers
  {
    r.(pollers := r.pollers[id := r.pollers[id].(phase := phase)])
  }

  function SetNotify(r: Relay, c: Chan, n: Notify): Relay
  {
    r.(notifies := r.notifies[c := n])
  }

  predicate HasSignal(p: Phase) { p.Armed? || p.Waiting? || p.Served? }

  predicate Registered(p: Phase) { HasSignal(p) && p.signal == Unsignalled }

  /** This poller will still empty the inbox, or pass its grant on. */
  predicate Pending(p: Phase) { p.Woken? || (HasSignal(p) && p.signal == Granted) }

  function Grant(p: Phase): Phase
    requires HasSignal(p)
  {
    p.(signal := Granted)
  }

  /** `Notify::notify_one`: the first waiter in line, else a stored permit. */
  function NotifyOne(r: Relay, c: Chan): Relay
  {
    if c !in r.notifies then r
    else
      var n := r.notifies[c];
      if n.waiters == [] then SetNotify(r, c, n.(permit := true))
      else
        var w := n.waiters[0];
        var r' := SetNotify(r, c, n.(waiters := n.waiters[1..]));
        if w in r.pollers && HasSignal(r.pollers[w].phase)
        then SetPhase(r', w, Grant(r.pollers[w].phase))
        else r'
  }

  function CountUp(polls: map<Chan, nat>, c: Chan): map<Chan, nat>
  {
    polls[c := (if c in polls then polls[c] else 0) + 1]
  }

  function CountDown(polls: map<Chan, nat>, c: Chan): map<Chan, nat>
  {
    if c !in polls then polls
    else if polls[c] <= 1 then polls - {c}
    else polls[c := polls[c] - 1]
  }

  function IsNot(id: nat): nat -> bool { (w: nat) => w != id }

  /** The poll future ends: its wait and its guard are dropped. */
  function Exit(r: Relay, id: nat): Relay
    requires id in r.pollers && HasSignal(r.pollers[id].phase)
  {
    var Poller(c, phase) := r.pollers[id];
    var gone := r.(pollers := r.pollers - {id}, polls := CountDown(r.polls, c));
    match phase.signal
    case Unsignalled =>
      if c in r.notifies
      then SetNotify(gone, c, r.notifies[c].(waiters := Filter(r.notifies[c].waiters, IsNot(id))))
      else gone
    case Granted => NotifyOne(gone, c)
    case Consumed => gone
  }

  predicate LockFree(r: Relay) { r.waking.None? }

  predicate At(r: Relay, id: nat, p: Phase -> bool)
  {
    id in r.pollers && p(r.pollers[id].phase)
  }

  predicate Enabled(r: Relay, op: Op)
  {
    match op
    case Register(_, _) => LockFree(r)
    case Store(_, to, env) => LockFree(r) && to in r.t.identities && Admit(r.t, to, env, r.clock).Ok?
    case Wake => r.waking.Some?
    case Touch(_) => LockFree(r)
    case Pull(uin, ts, valid, d) => LockFree(r) && Matches(r.t, uin, valid, d)
    case Gc => LockFree(r)
    case Enter(id, uin, ts, valid, d) =>
      LockFree(r) && id !in r.pollers && Matches(r.t, uin, valid, d) &&
      Authenticate(r.t, uin, ts, d, r.clock).Ok?
    case Attach(id) => At(r, id, (p: Phase) => p.Entered?)
    case Arm(id) => At(r, id, (p: Phase) => p.Attached?) && r.pollers[id].chan in r.notifies
    case Check(id) => LockFree(r) && At(r, id, (p: Phase) => p.Armed?)
    case Resume(id) => At(r, id, (p: Phase) => p.Waiting? && p.signal != Unsignalled)
    case Serve(id) => LockFree(r) && At(r, id, (p: Phase) => p.Woken?)
    case Finish(id) => At(r, id, (p: Phase) => p.Served?)
    case Leave(id) => At(r, id, (p: Phase) => p.Waiting?)
  }

  function StoreOne(r: Relay, from: Uin, to: Uin, env: Envelope): Relay
    requires Admit(r.t, to, env, r.clock).Ok?
  {
    var pk := Admit(r.t, to, env, r.clock).value;
    r.(t := InsertSlot(r.t, to, pk, from, env.ciphertext, r.clock),
       inserted := r.inserted + [NewSlot(r.t, to, pk, from, env.ciphertext, r.clock)],
       waking := Some(Chan(to, pk)))
  }

  function PullStep(r: Relay, uin: Uin, ts: int, d: Option<Key>): Relay
  {
    match Authenticate(r.t, uin, ts, d, r.clock)
    case Err(_) => r
    case Ok(device) =>
      var r' := Deliver(r, Chan(uin, device));
      r'.(t := MeshTables.Touch(r'.t, device, r.clock))
  }

  function EnterStep(r: Relay, id: nat, c: Chan): Relay
  {
    r.(t := MeshTables.Touch(r.t, c.device, r.clock),
       pollers := r.pollers[id := Poller(c, Entered)], polls := CountUp(r.polls, c))
  }

  function AttachStep(r: Relay, id: nat): Relay
    requires id in r.pollers
  {
    var c := r.pollers[id].chan;
    var r' := if c in r.notifies then r else SetNotify(r, c, Notify(false, []));
    SetPhase(r', id, Attached)
  }

  /** `enable`: use up a stored permit, else join the line. */
  function ArmStep(r: Relay, id: nat): Relay
    requires id in r.pollers && r.pollers[id].chan in r.notifies
  {
    var c := r.pollers[id].chan;
    var n := r.notifies[c];
    if n.permit then SetPhase(SetNotify(r, c, n.(permit := false)), id, Armed(Consumed))
    else SetPhase(SetNotify(r, c, n.(waiters := n.waiters + [id])), id, Armed(Unsignalled))
  }

  function CheckStep(r: Relay, id: nat): Relay
    requires id in r.pollers && r.pollers[id].phase.Armed?
  {
    var Poller(c, phase) := r.pollers[id];
    if Inbox(r, c) == [] then SetPhase(r, id, Waiting(phase.signal))
    else SetPhase(Deliver(r, c), id, Served(phase.signal, Views(Inbox(r, c))))
  }

  function ServeStep(r: Relay, id: nat): Relay
    requires id in r.pollers
  {
    var c := r.pollers[id].chan;
    SetPhase(Deliver(r, c), id, Served(Consumed, Views(Inbox(r, c))))
  }

  function Collect(r: Relay): Relay
  {
    r.(t := MeshTables.Gc(r.t, r.clock), dropped := r.dropped + Filter(r.t.slots, Expired(r.clock)))
  }

  function Apply(r: Relay, op: Op): Relay
    requires Enabled(r, op)
  {
    match op
    case Register(req, draws) => r.(t := MeshTables.Register(r.t, req, draws, r.clock).0)
    case Store(from, to, env) => StoreOne(r, from, to, env)
    case Wake => NotifyOne(r, r.waking.value).(waking := None)
    case Touch(device) => r.(t := MeshTables.Touch(r.t, device, r.clock))
    case Pull(uin, ts, valid, d) => PullStep(r, uin, ts, d)
    case Gc => Collect(r)
    case Enter(id, uin, ts, valid, d) => EnterStep(r, id, Chan(uin, d.value))
    case Attach(id) => AttachStep(r, id)
    case Arm(id) => ArmStep(r, id)
    case Check(id) => CheckStep(r, id)
    case Resume(id) => SetPhase(r, id, Woken)
    case Serve(id) => ServeStep(r, id)
    case Finish(id) => Exit(r, id)
    case Leave(id) => Exit(r, id)
  }

  function Tick(r: Relay, now: int): Relay { r.(clock := now) }

  /** An event that is not enabled, or whose clock runs backwards, does not happen. */
  function Step(r: Relay, e: Event): Relay
  {
    if r.clock <= e.now && Enabled(Tick(r, e.now), e.op) then Apply(Tick(r, e.now), e.op) else r
  }

  function RunFrom(r: Relay, events: seq<Event>): Relay
  {
    if events == [] then r else Step(RunFrom(r, events[..|events| - 1]), events[|events| - 1])
  }

  function Run(events: seq<Event>): Relay { RunFrom(START, events) }
}
