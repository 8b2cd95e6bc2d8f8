/** The engine that keeps one track per node and applies the rules to it. */
module AlertEngine {
  import opened Collections
  import opened Numbers
  import opened AlertRules
  import opened AlertFleet

  class Engine {
    const cfg: Config
    var nodes: map<Id, Track>
    var cpu: map<Id, CpuTrack>

    constructor (cfg: Config)
      ensures this.cfg == cfg && nodes == map[] && cpu == map[]
    {
      this.cfg, nodes, cpu := cfg, map[], map[];
    }

    function State(): Fleet
      reads this
    {
      Fleet(nodes, cpu)
    }

    method PopStale(ts: seq<Instant>, now: Instant) returns (kept: seq<Instant>)
      ensures kept == DropStale(ts, now, cfg.flapWindow * SEC)
    {
      kept := ts;
      while kept != [] && Since(now, kept[0]) > cfg.flapWindow * SEC
        invariant DropStale(kept, now, cfg.flapWindow * SEC) == DropStale(ts, now, cfg.flapWindow * SEC)
        decreases |kept|
      {
        kept := kept[1..];
      }
    }

    method Observe(id: Id, heartbeat: Option<int>, nowMs: int, now: Instant) returns (d: Decision)
      modifies this`nodes
      ensures (State(), d) == Step(cfg, old(State()), Op.Observe(id, heartbeat, nowMs, now))
    {
      var t := TrackOf(State(), id, now);
      var newNode := Since(now, t.firstSeen) < cfg.newNodeGrace * SEC;
      if heartbeat.None? {
        nodes := nodes[id := t];
        return None;
      }
      var silence := SilenceSec(nowMs, heartbeat.value);
      if silence >= FlapGap(cfg) {
        if !t.hiccup {
          var kept := PopStale(t.transitions + [now], now);
          t := t.(hiccup := true, transitions := kept);
          if |kept| < FlapThreshold(cfg) {
            t := t.(flapAlerted := false);
          }
          if |kept| >= FlapThreshold(cfg) && !t.flapAlerted && !newNode {
            nodes := nodes[id := t.(flapAlerted := true)];
            return Some(Fire(NodeFlapping, |kept|));
          }
        }
      } else if silence * 2 < FlapGap(cfg) {
        t := t.(hiccup := false);
      }
      if silence >= cfg.offlineThreshold {
        t, d := ObserveOffline(t, silence, now);
      } else {
        t, d := ObserveOnline(t, now);
      }
      nodes := nodes[id := t];
    }

    method ObserveOffline(t0: Track, silence: int, now: Instant) returns (t: Track, d: Decision)
      ensures (t, d) == OfflineStep(cfg, t0, silence, now)
    {
      t := t0.(okSince := None);
      if t.offlineSince.None? {
        t := t.(offlineSince := Some(now));
      }
      var lasted := Max(silence, Secs(Since(now, t.offlineSince.value)));
      var newNode := Since(now, t.firstSeen) < cfg.newNodeGrace * SEC;
      if t.alerted && !t.longAlerted && !newNode && lasted >= Max(cfg.offlineLong, 600) {
        return t.(longAlerted := true), Some(Fire(NodeOfflineLong, lasted));
      }
      if t.alerted || newNode {
        return t, None;
      }
      if Throttled(t, NodeOffline, now, cfg.throttle) {
        return t, None;
      }
      t := t.(alerted := true, lastSent := t.lastSent[NodeOffline := now]);
      d := Some(Fire(NodeOffline, lasted));
    }

    method ObserveOnline(t0: Track, now: Instant) returns (t: Track, d: Decision)
      ensures (t, d) == OnlineStep(cfg, t0, now)
    {
      t := t0.(offlineSince := None);
      if !t.alerted {
        return t, None;
      }
      if t.okSince.None? {
        t := t.(okSince := Some(now));
      }
      var stable := Secs(Since(now, t.okSince.value));
      if stable < cfg.recoveryGrace {
        return t, None;
      }
      t := t.(alerted := false, longAlerted := false, okSince := None);
      d := Some(Fire(NodeRecovered, stable));
    }

    method ObserveCpu(id: Id, pct: Option<real>, now: Instant) returns (d: Decision)
      modifies this`cpu
      ensures (State(), d) == Step(cfg, old(State()), Cpu(id, pct, now))
    {
      d := None;
      assert if id in cpu then cpu == cpu[id := cpu[id]] else cpu == cpu - {id};
      if pct.None? {
        return;
      }
      if pct.value >= cfg.cpuThreshold {
        if id !in cpu {
          cpu := cpu[id := CpuTrack(now, false)];
        }
        assert cpu == cpu[id := cpu[id]];
        if cpu[id].alerted {
          return;
        }
        var held := Since(now, cpu[id].highSince);
        if held >= CpuHold(cfg) {
          cpu := cpu[id := cpu[id].(alerted := true)];
          d := Some(Fire(NodeCpuHigh, Secs(held)));
        }
      } else if pct.value < CpuReset(cfg) {
        cpu := cpu - {id};
      }
    }

    method Seed(id: Id, already: bool, now: Instant, reachable: bool)
      modifies this`nodes
      ensures State() == Step(cfg, old(State()), Op.Seed(id, already, now, reachable)).0
    {
      var t := TrackOf(State(), id, now);
      t := t.(firstSeen := if reachable then now - cfg.newNodeGrace * SEC else now, alerted := already);
      if already {
        t := t.(offlineSince := Some(now));
      }
      nodes := nodes[id := t];
    }

    method IsAlerted(id: Id) returns (alerted: bool)
      ensures alerted == (id in nodes && nodes[id].alerted)
    {
      alerted := if id in nodes then nodes[id].alerted else false;
    }

    /** The per-tick seed of a node with a known heartbeat: it keeps its alert
        state, so it is one the fleet's promises allow. */
    method Reseed(id: Id, now: Instant, reachable: bool) returns (already: bool)
      modifies this`nodes
      ensures State() == Step(cfg, old(State()), Op.Seed(id, already, now, reachable)).0
      ensures id in old(nodes) ==> already == old(nodes[id].alerted)
    {
      already := IsAlerted(id);
      Seed(id, already, now, reachable);
    }

    /** Forget the tracks of nodes that are gone, one by one; not their CPU tracks. */
    method RetainNodes(alive: seq<Id>)
      modifies this`nodes
      ensures State() == Step(cfg, old(State()), Retain(alive)).0
    {
      var todo := nodes.Keys;
      while todo != {}
        invariant todo <= old(nodes).Keys
        invariant nodes == map id | id in old(nodes) && (id in todo || id in alive) :: old(nodes)[id]
        decreases todo
      {
        var id :| id in todo;
        if id !in alive {
          nodes := nodes - {id};
        }
        todo := todo - {id};
      }
    }
  }
}
