/** The alert engine's rules, one observation at a time. */
module AlertRules {
  import opened Collections
  import opened Numbers

  const SEC: int := 1_000_000_000

  /** Monotonic clock readings, in nanoseconds. */
  type Instant = int
  type Id = nat

  datatype Config = Config(offlineThreshold: nat, recoveryGrace: nat, newNodeGrace: nat, throttle: nat,
                           flapGap: nat, flapWindow: nat, flapThreshold: nat, offlineLong: nat,
                           cpuThreshold: real, cpuHold: nat, cpuReset: real)

  datatype Kind = NodeOffline | NodeRecovered | NodeOfflineLong | NodeFlapping | NodeCpuHigh

  datatype Fire = Fire(kind: Kind, duration: int)
  type Decision = Option<Fire>

  datatype Track = Track(firstSeen: Instant, offlineSince: Option<Instant>, okSince: Option<Instant>,
                         alerted: bool, transitions: seq<Instant>, flapAlerted: bool, hiccup: bool,
                         longAlerted: bool, lastSent: map<Kind, Instant>)

  function NewTrack(now: Instant): Track
  {
    Track(now, None, None, false, [], false, false, false, map[])
  }

  function Secs(d: nat): nat { d / SEC }

  function Throttled(t: Track, kind: Kind, now: Instant, throttle: nat): bool
  {
    kind in t.lastSent && Secs(Since(now, t.lastSent[kind])) < throttle
  }

  /** Milliseconds to whole seconds, toward zero. */
  function SilenceSec(nowMs: int, lastMs: int): int
  {
    TruncDiv(nowMs - lastMs, 1000)
  }

  function FlapGap(cfg: Config): nat { Max(cfg.flapGap, 60) }

  function FlapThreshold(cfg: Config): nat { Max(cfg.flapThreshold, 2) }

  /** Drop the episodes that began before the window. */
  function DropStale(ts: seq<Instant>, now: Instant, window: nat): seq<Instant>
  {
    if ts != [] && Since(now, ts[0]) > window then DropStale(ts[1..], now, window) else ts
  }

  // ---- The flapping rule ----

  /** A reading that starts a silence episode. */
  predicate StartsEpisode(cfg: Config, t: Track, silence: int)
  {
    silence >= FlapGap(cfg) && !t.hiccup
  }

  function RecordEpisode(cfg: Config, t: Track, now: Instant): Track
  {
    var ts := DropStale(t.transitions + [now], now, cfg.flapWindow * SEC);
    t.(hiccup := true, transitions := ts,
       flapAlerted := t.flapAlerted && |ts| >= FlapThreshold(cfg))
  }

  function FlapStep(cfg: Config, t: Track, silence: int, now: Instant): Track
  {
    if StartsEpisode(cfg, t, silence) then RecordEpisode(cfg, t, now)
    else if silence < FlapGap(cfg) && silence * 2 < FlapGap(cfg) then t.(hiccup := false)
    else t
  }

  predicate IsNew(cfg: Config, t: Track, now: Instant)
  {
    Since(now, t.firstSeen) < cfg.newNodeGrace * SEC
  }

  predicate FlapFires(cfg: Config, t: Track, silence: int, now: Instant)
  {
    StartsEpisode(cfg, t, silence) &&
    var t' := RecordEpisode(cfg, t, now);
    |t'.transitions| >= FlapThreshold(cfg) && !t'.flapAlerted && !IsNew(cfg, t, now)
  }

  // ---- The offline and recovery rules ----

  function OfflineStep(cfg: Config, t0: Track, silence: int, now: Instant): (Track, Decision)
  {
    var since := if t0.offlineSince.Some? then t0.offlineSince.value else now;
    var t := t0.(okSince := None, offlineSince := Some(since));
    var lasted := Max(silence, Secs(Since(now, since)));
    if t.alerted && !t.longAlerted && !IsNew(cfg, t, now) && lasted >= Max(cfg.offlineLong, 600) then
      (t.(longAlerted := true), Some(Fire(NodeOfflineLong, lasted)))
    else if t.alerted || IsNew(cfg, t, now) || Throttled(t, NodeOffline, now, cfg.throttle) then (t, None)
    else (t.(alerted := true, lastSent := t.lastSent[NodeOffline := now]), Some(Fire(NodeOffline, lasted)))
  }

  function OnlineStep(cfg: Config, t0: Track, now: Instant): (Track, Decision)
  {
    var t := t0.(offlineSince := None);
    if !t.alerted then (t, None)
    else
      var okSince := if t.okSince.Some? then t.okSince.value else now;
      var stable := Secs(Since(now, okSince));
      if stable < cfg.recoveryGrace then (t.(okSince := Some(okSince)), None)
      else (t.(alerted := false, longAlerted := false, okSince := None), Some(Fire(NodeRecovered, stable)))
  }

  function Observe(cfg: Config, t: Track, heartbeat: Option<int>, nowMs: int, now: Instant): (Track, Decision)
  {
    if heartbeat.None? then (t, None)
    else
      var silence := SilenceSec(nowMs, heartbeat.value);
      var t1 := FlapStep(cfg, t, silence, now);
      if FlapFires(cfg, t, silence, now) then (t1.(flapAlerted := true), Some(Fire(NodeFlapping, |t1.transitions|)))
      else if silence >= cfg.offlineThreshold then OfflineStep(cfg, t1, silence, now)
      else OnlineStep(cfg, t1, now)
  }

  /** `reachable` says whether the clock goes back far enough to subtract the grace. */
  function Seed(cfg: Config, t: Track, already: bool, now: Instant, reachable: bool): Track
  {
    t.(firstSeen := if reachable then now - cfg.newNodeGrace * SEC else now,
       alerted := already,
       offlineSince := if already then Some(now) else t.offlineSince)
  }

  // ---- The CPU rule ----

  datatype CpuTrack = CpuTrack(highSince: Instant, alerted: bool)

  function CpuReset(cfg: Config): real
  {
    if cfg.cpuReset < cfg.cpuThreshold - 1.0 then cfg.cpuReset else cfg.cpuThreshold - 1.0
  }

  function CpuHold(cfg: Config): nat { Max(cfg.cpuHold, 60) * SEC }

  function ObserveCpu(cfg: Config, t: Option<CpuTrack>, cpu: Option<real>, now: Instant): (Option<CpuTrack>, Decision)
  {
    if cpu.None? then (t, None)
    else if cpu.value >= cfg.cpuThreshold then
      var track := if t.Some? then t.value else CpuTrack(now, false);
      var held := Since(now, track.highSince);
      if track.alerted || held < CpuHold(cfg) then (Some(track), None)
      else (Some(track.(alerted := true)), Some(Fire(NodeCpuHigh, Secs(held))))
    else if cpu.value < CpuReset(cfg) then (None, None)
    else (t, None)
  }
}
