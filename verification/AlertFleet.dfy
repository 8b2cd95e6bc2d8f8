/**
 The engine's operations on all nodes, in any interleaving: each node's track
 and alerts are those of its own readings since it was last absent.
 */
module AlertFleet {
  import opened Collections
  import opened AlertRules
  import opened AlertRuns
  import opened AlertEpisodes

  datatype Fleet = Fleet(nodes: map<Id, Track>, cpu: map<Id, CpuTrack>)

  datatype Op =
    | Observe(id: Id, heartbeat: Option<int>, nowMs: int, now: Instant)
    | Seed(id: Id, already: bool, now: Instant, reachable: bool)
    | Cpu(id: Id, pct: Option<real>, now: Instant)
    | Retain(alive: seq<Id>)

  const NONE := Fleet(map[], map[])

  function TrackOf(f: Fleet, id: Id, now: Instant): Track
  {
    if id in f.nodes then f.nodes[id] else NewTrack(now)
  }

  function CpuTrackOf(f: Fleet, id: Id): Option<CpuTrack>
  {
    if id in f.cpu then Some(f.cpu[id]) else None
  }

  function Step(cfg: Config, f: Fleet, op: Op): (Fleet, Decision)
  {
    match op
    case Observe(id, heartbeat, nowMs, now) =>
      var (t, d) := AlertRules.Observe(cfg, TrackOf(f, id, now), heartbeat, nowMs, now);
      (f.(nodes := f.nodes[id := t]), d)
    case Seed(id, already, now, reachable) =>
      (f.(nodes := f.nodes[id := AlertRules.Seed(cfg, TrackOf(f, id, now), already, now, reachable)]), None)
    case Cpu(id, pct, now) =>
      var (t, d) := ObserveCpu(cfg, CpuTrackOf(f, id), pct, now);
      (f.(cpu := if t.Some? then f.cpu[id := t.value] else f.cpu - {id}), d)
    case Retain(alive) => (f.(nodes := map id | id in f.nodes && id in alive :: f.nodes[id]), None)
  }

  function Run(cfg: Config, ops: seq<Op>): Fleet
  {
    if ops == [] then NONE else Step(cfg, Run(cfg, ops[..|ops| - 1]), ops[|ops| - 1]).0
  }

  /** A seed passes a known node its own alert state back; only for a node the
      engine does not know may it come from elsewhere. */
  ghost predicate Driven(cfg: Config, ops: seq<Op>)
  {
    forall k :: 0 <= k < |ops| && ops[k].Seed? ==>
      var f := Run(cfg, ops[..k]);
      ops[k].id in f.nodes ==> ops[k].already == f.nodes[ops[k].id].alerted
  }

  // ---- One node ----

  /** A node's track since it was last absent: how it began and what it saw. */
  datatype Life = Life(start: Instant, opening: Opening, events: seq<Event>)

  function Init(cfg: Config, l: Life): Track { Opened(cfg, l.start, l.opening) }

  function Lives(life: Option<Life>, op: Op, id: Id): Option<Life>
  {
    match op
    case Observe(x, heartbeat, nowMs, now) =>
      if x != id then life
      else
        var l := if life.Some? then life.value else Life(now, Met, []);
        Some(l.(events := l.events + [Reading(heartbeat, nowMs, now)]))
    case Seed(x, already, now, reachable) =>
      if x != id then life
      else if life.Some? then Some(life.value.(events := life.value.events + [Reseed(now, reachable)]))
      else Some(Life(now, Seeded(already, reachable), []))
    case Cpu(_, _, _) => life
    case Retain(alive) => if id in alive then life else None
  }

  function History(ops: seq<Op>, id: Id): Option<Life>
  {
    if ops == [] then None else Lives(History(ops[..|ops| - 1], id), ops[|ops| - 1], id)
  }

  /** The heartbeat alerts the engine sent for a node since it was last absent. */
  function SentFor(cfg: Config, ops: seq<Op>, id: Id): seq<Sent>
  {
    if ops == [] then [] else
      var before, op := ops[..|ops| - 1], ops[|ops| - 1];
      var sent, d := SentFor(cfg, before, id), Step(cfg, Run(cfg, before), op).1;
      if op.Retain? then (if id in op.alive then sent else [])
      else if op.Observe? && op.id == id && d.Some? then sent + [Sent(d.value.kind, op.now)]
      else sent
  }

  /** The fleet's view of a node is a run of the node's own events. */
  ghost predicate Follows(cfg: Config, f: Fleet, id: Id, life: Option<Life>, sent: seq<Sent>)
  {
    match life
    case None => id !in f.nodes && sent == []
    case Some(l) =>
      && id in f.nodes
      && f.nodes[id] == RunTrack(cfg, Init(cfg, l), l.events) && sent == Fires(cfg, Init(cfg, l), l.events)
  }

  lemma RunSnoc(cfg: Config, init: Track, es: seq<Event>, e: Event)
    ensures var (t, d) := StepEvent(cfg, RunTrack(cfg, init, es), e);
            && RunTrack(cfg, init, es + [e]) == t
            && Fires(cfg, init, es + [e]) ==
               if d.Some? then Fires(cfg, init, es) + [Sent(d.value.kind, e.now)] else Fires(cfg, init, es)
  {
    assert (es + [e])[..|es|] == es;
  }

  lemma {:induction false} NodeFollowsOwnEvents(cfg: Config, ops: seq<Op>, id: Id)
    requires Driven(cfg, ops)
    ensures Follows(cfg, Run(cfg, ops), id, History(ops, id), SentFor(cfg, ops, id))
  {
    if ops != [] {
      var before, op := ops[..|ops| - 1], ops[|ops| - 1];
      forall k | 0 <= k < |before| ensures before[..k] == ops[..k] {}
      NodeFollowsOwnEvents(cfg, before, id);
      var life := History(before, id);
      match op
      case Observe(x, heartbeat, nowMs, now) =>
        if x == id {
          var l := if life.Some? then life.value else Life(now, Met, []);
          RunSnoc(cfg, Init(cfg, l), l.events, Reading(heartbeat, nowMs, now));
        }
      case Seed(x, already, now, reachable) =>
        if x == id && life.Some? {
          RunSnoc(cfg, Init(cfg, life.value), life.value.events, Reseed(now, reachable));
        }
      case Cpu(_, _, _) =>
      case Retain(_) =>
    }
  }

  // ---- Promises per node ----

  /** The clocks of the operations do not run backwards. */
  ghost predicate InTime(ops: seq<Op>)
  {
    forall i, j :: 0 <= i < j < |ops| && !ops[i].Retain? && !ops[j].Retain? ==> ops[i].now <= ops[j].now
  }

  ghost predicate HappensAt(ops: seq<Op>, k: int, now: Instant)
  {
    0 <= k < |ops| && !ops[k].Retain? && ops[k].now == now
  }

  ghost predicate Occurs(ops: seq<Op>, now: Instant)
  {
    exists k :: HappensAt(ops, k, now)
  }

  /** The life's events have the times of operations, in order. */
  ghost predicate TimedBy(l: Life, ops: seq<Op>)
  {
    && Begins(l.start, l.events) && Occurs(ops, l.start)
    && forall i :: 0 <= i < |l.events| ==> Occurs(ops, l.events[i].now)
  }

  lemma OccursMore(ops: seq<Op>, op: Op, now: Instant)
    requires Occurs(ops, now)
    ensures Occurs(ops + [op], now)
    ensures InTime(ops + [op]) && !op.Retain? ==> now <= op.now
  {
    var k :| HappensAt(ops, k, now);
    assert HappensAt(ops + [op], k, now);
    assert (ops + [op])[k] == ops[k] && (ops + [op])[|ops|] == op;
  }

  lemma TimedByMore(l: Life, ops: seq<Op>, op: Op)
    requires TimedBy(l, ops)
    ensures TimedBy(l, ops + [op])
  {
    OccursMore(ops, op, l.start);
    forall i | 0 <= i < |l.events| ensures Occurs(ops + [op], l.events[i].now) {
      OccursMore(ops, op, l.events[i].now);
    }
  }

  lemma TimedBySnoc(l: Life, ops: seq<Op>, op: Op, e: Event)
    requires TimedBy(l, ops + [op]) && InTime(ops + [op]) && !op.Retain? && op.now == e.now
    ensures TimedBy(l.(events := l.events + [e]), ops + [op])
  {
    var all := ops + [op];
    assert HappensAt(all, |ops|, e.now) && Occurs(all, e.now);
    forall t | Occurs(all, t) ensures t <= e.now {
      var k :| HappensAt(all, k, t);
      assert k < |ops| ==> all[k].now <= all[|ops|].now;
    }
    assert l.start <= e.now;
  }

  lemma {:induction false} HistoryOrdered(ops: seq<Op>, id: Id)
    requires InTime(ops)
    ensures History(ops, id).Some? ==> TimedBy(History(ops, id).value, ops)
  {
    if ops != [] {
      var before, op := ops[..|ops| - 1], ops[|ops| - 1];
      assert ops == before + [op];
      HistoryOrdered(before, id);
      var earlier := History(before, id);
      if earlier.Some? {
        TimedByMore(earlier.value, before, op);
      }
      if (op.Observe? || op.Seed?) && op.id == id {
        assert HappensAt(ops, |before|, op.now) && Occurs(ops, op.now);
        var l := if earlier.Some? then earlier.value else Life(op.now, Met, []);
        TimedBySnoc(l, before, op,
                    if op.Observe? then Reading(op.heartbeat, op.nowMs, op.now) else Reseed(op.now, op.reachable));
      }
    }
  }

  /** While a node is retained, whatever happens to the others, its offline,
      escalation and recovery alerts alternate as expected. */
  lemma NodeAlternates(cfg: Config, ops: seq<Op>, id: Id)
    requires Driven(cfg, ops) && id in Run(cfg, ops).nodes
    ensures var life, t := History(ops, id), Run(cfg, ops).nodes[id];
            && life.Some?
            && Replay(Init(cfg, life.value).alerted, SentFor(cfg, ops, id)) == Some(Phase(t.alerted, t.longAlerted))
  {
    NodeFollowsOwnEvents(cfg, ops, id);
    var l := History(ops, id).value;
    AlertsAlternate(cfg, Init(cfg, l), l.events);
  }

  /** And its offline alerts keep the throttle apart. */
  lemma NodeThrottled(cfg: Config, ops: seq<Op>, id: Id)
    requires Driven(cfg, ops) && InTime(ops)
    ensures Spaced(SentFor(cfg, ops, id), cfg.throttle * SEC)
  {
    NodeFollowsOwnEvents(cfg, ops, id);
    HistoryOrdered(ops, id);
    var life := History(ops, id);
    if life.Some? {
      ThrottleInvariant(cfg, Init(cfg, life.value), life.value.events);
    }
  }

  /** The engine's clock starts at `origin`. */
  ghost predicate ClockFrom(cfg: Config, origin: Instant, ops: seq<Op>)
  {
    && (forall k :: 0 <= k < |ops| && !ops[k].Retain? ==> origin <= ops[k].now)
    && (forall k :: 0 <= k < |ops| && ops[k].Seed? ==>
          (ops[k].reachable <==> origin <= ops[k].now - cfg.newNodeGrace * SEC))
  }

  ghost predicate LifeFrom(cfg: Config, origin: Instant, l: Life)
  {
    FromOrigin(cfg, origin, l.start, WithOpening(l.start, l.opening, l.events))
  }

  lemma LifeFromSnoc(cfg: Config, origin: Instant, l: Life, e: Event)
    requires LifeFrom(cfg, origin, l)
    requires e.Reseed? ==> origin <= e.now && (e.reachable <==> origin <= e.now - cfg.newNodeGrace * SEC)
    ensures LifeFrom(cfg, origin, l.(events := l.events + [e]))
  {
    var all, more := WithOpening(l.start, l.opening, l.events), WithOpening(l.start, l.opening, l.events + [e]);
    assert more == all + [e];
  }

  lemma LivesFrom(cfg: Config, origin: Instant, life: Option<Life>, op: Op, id: Id)
    requires life.Some? ==> LifeFrom(cfg, origin, life.value)
    requires !op.Retain? ==> origin <= op.now
    requires op.Seed? ==> (op.reachable <==> origin <= op.now - cfg.newNodeGrace * SEC)
    ensures Lives(life, op, id).Some? ==> LifeFrom(cfg, origin, Lives(life, op, id).value)
  {
    if op.Observe? && op.id == id {
      var l := if life.Some? then life.value else Life(op.now, Met, []);
      LifeFromSnoc(cfg, origin, l, Reading(op.heartbeat, op.nowMs, op.now));
    } else if op.Seed? && op.id == id && life.Some? {
      LifeFromSnoc(cfg, origin, life.value, Reseed(op.now, op.reachable));
    }
  }

  lemma {:induction false} HistoryFromOrigin(cfg: Config, origin: Instant, ops: seq<Op>, id: Id)
    requires ClockFrom(cfg, origin, ops)
    ensures History(ops, id).Some? ==> LifeFrom(cfg, origin, History(ops, id).value)
  {
    if ops != [] {
      HistoryFromOrigin(cfg, origin, ops[..|ops| - 1], id);
      LivesFrom(cfg, origin, History(ops[..|ops| - 1], id), ops[|ops| - 1], id);
    }
  }

  /** What the engine decides on an observation of a node is what the rules
      decide on that node's own events. */
  lemma ObserveDecides(cfg: Config, ops: seq<Op>)
    requires Driven(cfg, ops) && InTime(ops) && ops != [] && ops[|ops| - 1].Observe?
    ensures var op := ops[|ops| - 1];
            && History(ops, op.id).Some?
            && var l := History(ops, op.id).value;
               && l.events != [] && Begins(l.start, l.events)
               && l.events[|l.events| - 1] == Reading(op.heartbeat, op.nowMs, op.now)
               && Step(cfg, Run(cfg, ops[..|ops| - 1]), op).1 == DecisionAt(cfg, Init(cfg, l), l.events, |l.events| - 1)
  {
    var before, op := ops[..|ops| - 1], ops[|ops| - 1];
    forall k | 0 <= k < |before| ensures before[..k] == ops[..k] {}
    NodeFollowsOwnEvents(cfg, before, op.id);
    HistoryOrdered(ops, op.id);
    var l, earlier := History(ops, op.id).value, History(before, op.id);
    assert l.events[..|l.events| - 1] == if earlier.Some? then earlier.value.events else [];
  }

  /** While a node's grace is in force nothing fires for it but the recovery
      from an alert it was seeded with. */
  lemma NodeQuietWhileNew(cfg: Config, origin: Instant, ops: seq<Op>, id: Id)
    requires Driven(cfg, ops) && InTime(ops) && ops != []
    requires var op := ops[|ops| - 1];
             op.Observe? && op.id == id && Step(cfg, Run(cfg, ops[..|ops| - 1]), op).1.Some?
    requires var l := History(ops, id).value;
             l.events != [] &&
             GraceInForce(cfg, l.start, WithOpening(l.start, l.opening, l.events[..|l.events| - 1]), ops[|ops| - 1].now)
    ensures Step(cfg, Run(cfg, ops[..|ops| - 1]), ops[|ops| - 1]).1.value.kind == NodeRecovered
    ensures ClockFrom(cfg, origin, ops) ==>
              var l := History(ops, id).value;
              SeedStands(cfg, l.start, l.opening, l.events[..|l.events| - 1])
  {
    ObserveDecides(cfg, ops);
    if ClockFrom(cfg, origin, ops) {
      HistoryFromOrigin(cfg, origin, ops, id);
    }
    var l := History(ops, id).value;
    QuietWhileNew(cfg, origin, l.start, l.opening, l.events, |l.events| - 1);
  }

  // ---- CPU ----

  /** A node's CPU readings; losing its track does not make them forgotten. */
  function CpuReadings(ops: seq<Op>, id: Id): seq<CpuReading>
  {
    if ops == [] then [] else
      var before, op := CpuReadings(ops[..|ops| - 1], id), ops[|ops| - 1];
      if op.Cpu? && op.id == id then before + [CpuReading(op.pct, op.now)] else before
  }

  /** Each node's CPU track is that of its own readings. */
  lemma {:induction false} CpuFollowsOwnReadings(cfg: Config, ops: seq<Op>, id: Id)
    ensures CpuTrackOf(Run(cfg, ops), id) == CpuRun(cfg, CpuReadings(ops, id))
  {
    if ops != [] {
      var before, op := ops[..|ops| - 1], ops[|ops| - 1];
      CpuFollowsOwnReadings(cfg, before, id);
      if op.Cpu? && op.id == id {
        var rs := CpuReadings(before, id);
        assert (rs + [CpuReading(op.pct, op.now)])[..|rs|] == rs;
      }
    }
  }

  /** What the engine decides on a node's CPU reading depends on that node's
      readings only. */
  lemma CpuDecidesOnOwnReadings(cfg: Config, ops: seq<Op>, k: nat)
    requires k < |ops| && ops[k].Cpu?
    ensures var rs := CpuReadings(ops[..k + 1], ops[k].id);
            && rs == CpuReadings(ops[..k], ops[k].id) + [CpuReading(ops[k].pct, ops[k].now)]
            && Step(cfg, Run(cfg, ops[..k]), ops[k]).1 == CpuDecision(cfg, rs, |rs| - 1)
  {
    assert ops[..k + 1][..k] == ops[..k];
    CpuFollowsOwnReadings(cfg, ops[..k], ops[k].id);
    var rs := CpuReadings(ops[..k + 1], ops[k].id);
    assert rs[..|rs| - 1] == CpuReadings(ops[..k], ops[k].id);
  }

  /** Each reading was made by an operation. */
  lemma {:induction false} ReadingMade(ops: seq<Op>, id: Id, r: nat) returns (k: nat)
    requires r < |CpuReadings(ops, id)|
    ensures k < |ops| && ops[k].Cpu? && ops[k].id == id && |CpuReadings(ops[..k], id)| == r
    ensures CpuReadings(ops, id)[r] == CpuReading(ops[k].pct, ops[k].now)
  {
    var n := |ops| - 1;
    if r < |CpuReadings(ops[..n], id)| {
      k := ReadingMade(ops[..n], id, r);
      assert ops[..n][..k] == ops[..k];
    } else {
      k := n;
    }
  }

  lemma {:induction false} ReadingsExtend(ops: seq<Op>, id: Id, k: nat)
    requires k <= |ops|
    ensures CpuReadings(ops[..k], id) <= CpuReadings(ops, id)
  {
    if k < |ops| {
      assert ops[..|ops| - 1][..k] == ops[..k];
      ReadingsExtend(ops[..|ops| - 1], id, k);
    } else {
      assert ops[..k] == ops;
    }
  }

  lemma ReadingsGrow(ops: seq<Op>, id: Id, m: nat, i: nat)
    requires m <= i <= |ops|
    ensures |CpuReadings(ops[..m], id)| <= |CpuReadings(ops[..i], id)|
  {
    ReadingsExtend(ops[..i], id, m);
    assert ops[..i][..m] == ops[..m];
  }

  /** A CPU alert of the engine follows a high reading of the same node, at
      least the hold time before, with no low reading of it in between. */
  lemma NodeCpuHighMeaning(cfg: Config, ops: seq<Op>, k: nat) returns (j: nat)
    requires k < |ops| && ops[k].Cpu? && Step(cfg, Run(cfg, ops[..k]), ops[k]).1.Some?
    ensures j < k && ops[j].Cpu? && ops[j].id == ops[k].id && ops[k].now - ops[j].now >= CpuHold(cfg)
    ensures High(cfg, CpuReading(ops[j].pct, ops[j].now)) && High(cfg, CpuReading(ops[k].pct, ops[k].now))
    ensures forall i :: j < i < k && ops[i].Cpu? && ops[i].id == ops[k].id ==> !Low(cfg, CpuReading(ops[i].pct, ops[i].now))
  {
    var id, rs := ops[k].id, CpuReadings(ops[..k + 1], ops[k].id);
    CpuDecidesOnOwnReadings(cfg, ops, k);
    var a := CpuHighMeaning(cfg, rs, |rs| - 1);
    j := ReadingMade(ops[..k], id, a);
    assert ops[..k][..j] == ops[..j];
    forall i | j < i < k && ops[i].Cpu? && ops[i].id == id ensures !Low(cfg, CpuReading(ops[i].pct, ops[i].now)) {
      ReadingPosition(ops, j, i);
      ReadingPosition(ops, i, k);
      ReadingAt(ops, i, k);
    }
  }

  /** A reading stays at its position. */
  lemma ReadingAt(ops: seq<Op>, i: nat, k: nat)
    requires i < k < |ops| && ops[i].Cpu?
    ensures var rs, p := CpuReadings(ops[..k + 1], ops[i].id), |CpuReadings(ops[..i], ops[i].id)|;
            p < |rs| && rs[p] == CpuReading(ops[i].pct, ops[i].now)
  {
    ReadingsExtend(ops[..k + 1], ops[i].id, i + 1);
    assert ops[..k + 1][..i + 1] == ops[..i + 1] && ops[..i + 1][..i] == ops[..i];
  }

  /** A later reading of the same node has a later position. */
  lemma ReadingPosition(ops: seq<Op>, j: nat, i: nat)
    requires j < i < |ops| && ops[j].Cpu? && ops[i].Cpu? && ops[j].id == ops[i].id
    ensures |CpuReadings(ops[..j], ops[j].id)| < |CpuReadings(ops[..i], ops[i].id)|
  {
    ReadingsExtend(ops[..i], ops[i].id, j + 1);
    assert ops[..i][..j + 1] == ops[..j + 1] && ops[..j + 1][..j] == ops[..j];
  }

  /** Two CPU alerts of a node have a low reading of it between them. */
  lemma NodeCpuHighOnce(cfg: Config, ops: seq<Op>, i: nat, k: nat) returns (m: nat)
    requires i < k < |ops| && ops[i].Cpu? && ops[k].Cpu? && ops[i].id == ops[k].id
    requires Step(cfg, Run(cfg, ops[..i]), ops[i]).1.Some? && Step(cfg, Run(cfg, ops[..k]), ops[k]).1.Some?
    ensures i < m < k && ops[m].Cpu? && ops[m].id == ops[k].id && Low(cfg, CpuReading(ops[m].pct, ops[m].now))
  {
    var id, rs := ops[k].id, CpuReadings(ops[..k + 1], ops[k].id);
    CpuDecidesOnOwnReadings(cfg, ops, i);
    CpuDecidesOnOwnReadings(cfg, ops, k);
    ReadingsExtend(ops[..k + 1], id, i + 1);
    assert ops[..k + 1][..i + 1] == ops[..i + 1];
    var p, q := |CpuReadings(ops[..i], id)|, |rs| - 1;
    ReadingPosition(ops, i, k);
    var early := CpuReadings(ops[..i + 1], id);
    assert rs[..p] == early[..p] && rs[p] == early[p];
    CpuHighOnce(cfg, rs, p, q);
    var r :| p < r < q && Low(cfg, rs[r]);
    m := ReadingMade(ops[..k], id, r);
    assert ops[..k][..m] == ops[..m];
    if m <= i {
      ReadingsGrow(ops, id, m, i);
    }
  }
}
