/**
 When each alert fires, exactly: the rules' decisions over every run, told from
 the readings and the alerts so far and not from what the engine remembers.
 */
module AlertHistory {
  import opened Collections
  import opened Numbers
  import opened AlertRules
  import opened AlertRuns
  import opened AlertEpisodes

  // ---- Silence ----

  /** The heartbeat is missing for at least so many whole seconds. */
  predicate SilentFor(e: Event, secs: nat)
  {
    e.Reading? && e.heartbeat.Some? &&
    if secs == 0 then e.nowMs - e.heartbeat.value > -1000 else e.nowMs - e.heartbeat.value >= 1000 * secs
  }

  lemma SilentForIff(e: Event, secs: nat)
    requires IsReading(e)
    ensures SilentFor(e, secs) <==> SilenceOf(e) >= secs
  {
  }

  function Gap(cfg: Config): nat { if cfg.flapGap >= 60 then cfg.flapGap else 60 }

  /** Missing for the flap gap, back within half of it, down for the threshold. */
  predicate Missing(cfg: Config, e: Event) { SilentFor(e, Gap(cfg)) }

  predicate Back(cfg: Config, e: Event) { IsReading(e) && !SilentFor(e, (Gap(cfg) + 1) / 2) }

  predicate Down(cfg: Config, e: Event) { SilentFor(e, cfg.offlineThreshold) }

  lemma SilenceKinds(cfg: Config, e: Event)
    ensures Missing(cfg, e) <==> Silent(cfg, e)
    ensures Back(cfg, e) <==> Calm(cfg, e)
    ensures Down(cfg, e) <==> Offline(cfg, e)
    ensures !(Missing(cfg, e) && Back(cfg, e))
  {
    if IsReading(e) {
      SilentForIff(e, Gap(cfg));
      SilentForIff(e, (Gap(cfg) + 1) / 2);
      SilentForIff(e, cfg.offlineThreshold);
    }
  }

  // ---- Episodes ----

  /** The heartbeat went missing and has not been back since. */
  ghost predicate InEpisode(cfg: Config, es: seq<Event>)
  {
    exists k :: 0 <= k < |es| && Missing(cfg, es[k]) && forall j :: k < j < |es| ==> !Back(cfg, es[j])
  }

  /** Reading k begins an episode. */
  ghost predicate Starts(cfg: Config, es: seq<Event>, k: nat)
    requires k < |es|
  {
    Missing(cfg, es[k]) && !InEpisode(cfg, es[..k])
  }

  lemma StillInEpisode(cfg: Config, es: seq<Event>)
    requires es != [] && InEpisode(cfg, es) && !Missing(cfg, es[|es| - 1])
    ensures !Back(cfg, es[|es| - 1]) && InEpisode(cfg, es[..|es| - 1])
  {
    var before := es[..|es| - 1];
    var k :| 0 <= k < |es| && Missing(cfg, es[k]) && forall j :: k < j < |es| ==> !Back(cfg, es[j]);
    assert before[k] == es[k];
    forall j | k < j < |before| ensures !Back(cfg, before[j]) {
      assert before[j] == es[j];
    }
  }

  lemma InEpisodeStep(cfg: Config, es: seq<Event>)
    requires es != []
    ensures var e := es[|es| - 1];
            InEpisode(cfg, es) <==> Missing(cfg, e) || (!Back(cfg, e) && InEpisode(cfg, es[..|es| - 1]))
  {
    var n := |es| - 1;
    var before, e := es[..n], es[n];
    if Missing(cfg, e) {
      assert es[n] == e;
    } else if !Back(cfg, e) && InEpisode(cfg, before) {
      var k :| 0 <= k < n && Missing(cfg, before[k]) && forall j :: k < j < n ==> !Back(cfg, before[j]);
      forall j | k < j < |es| ensures !Back(cfg, es[j]) {
        assert j < n ==> es[j] == before[j];
      }
      assert es[k] == before[k];
    } else if InEpisode(cfg, es) {
      StillInEpisode(cfg, es);
    }
  }

  lemma HiccupStep(cfg: Config, t: Track, e: Event)
    ensures StepEvent(cfg, t, e).0.hiccup <==> Missing(cfg, e) || (!Back(cfg, e) && t.hiccup)
  {
    SilenceKinds(cfg, e);
    ObserveEpisodes(cfg, t, e);
  }

  lemma {:induction false} HiccupIff(cfg: Config, init: Track, es: seq<Event>)
    requires Initial(init)
    ensures RunTrack(cfg, init, es).hiccup <==> InEpisode(cfg, es)
  {
    if es != [] {
      HiccupIff(cfg, init, es[..|es| - 1]);
      InEpisodeStep(cfg, es);
      HiccupStep(cfg, RunTrack(cfg, init, es[..|es| - 1]), es[|es| - 1]);
    }
  }

  /** How many of the first n readings began an episode within the flap window
      before `now`. */
  ghost function Episodes(cfg: Config, es: seq<Event>, now: Instant, n: nat): nat
    requires n <= |es|
  {
    if n == 0 then 0 else
      Episodes(cfg, es, now, n - 1) +
      if Starts(cfg, es, n - 1) && now - es[n - 1].now <= cfg.flapWindow * SEC then 1 else 0
  }

  lemma {:induction false} EpisodesPrefix(cfg: Config, es: seq<Event>, m: nat, now: Instant, n: nat)
    requires n <= m <= |es|
    ensures Episodes(cfg, es[..m], now, n) == Episodes(cfg, es, now, n)
  {
    if n > 0 {
      EpisodesPrefix(cfg, es, m, now, n - 1);
      assert es[..m][..n - 1] == es[..n - 1] && es[..m][n - 1] == es[n - 1];
    }
  }

  /** How many of the times lie within the window before `now`. */
  function Young(ts: seq<Instant>, now: Instant, window: int): nat
  {
    if ts == [] then 0 else Young(ts[1..], now, window) + if now - ts[0] <= window then 1 else 0
  }

  lemma {:induction false} YoungSnoc(ts: seq<Instant>, t: Instant, now: Instant, window: int)
    ensures Young(ts + [t], now, window) == Young(ts, now, window) + if now - t <= window then 1 else 0
  {
    if ts == [] {
      assert [t][1..] == [];
    } else {
      assert (ts + [t])[1..] == ts[1..] + [t];
      YoungSnoc(ts[1..], t, now, window);
    }
  }

  ghost predicate Rising(ts: seq<Instant>)
  {
    forall i, j :: 0 <= i < j < |ts| ==> ts[i] <= ts[j]
  }

  lemma {:induction false} AllYoung(ts: seq<Instant>, now: Instant, window: int)
    requires forall i :: 0 <= i < |ts| ==> now - ts[i] <= window
    ensures Young(ts, now, window) == |ts|
  {
    if ts != [] {
      AllYoung(ts[1..], now, window);
    }
  }

  /** Forgetting what is stale now changes no later count, and what is left is
      what counts now. */
  lemma {:induction false} DropStaleCounts(ts: seq<Instant>, now: Instant, window: nat, later: Instant)
    requires Rising(ts) && now <= later && forall i :: 0 <= i < |ts| ==> ts[i] <= now
    ensures var kept := DropStale(ts, now, window);
            && Young(kept, later, window) == Young(ts, later, window) && |kept| == Young(ts, now, window)
            && Rising(kept) && forall i :: 0 <= i < |kept| ==> kept[i] <= now
    decreases |ts|
  {
    if ts != [] {
      if Since(now, ts[0]) > window {
        DropStaleCounts(ts[1..], now, window, later);
      } else {
        AllYoung(ts, now, window);
      }
    }
  }

  /** The remembered starts count, at any later time, like all starts. */
  ghost predicate CountsEpisodes(cfg: Config, es: seq<Event>, t: Track, last: Instant)
  {
    && Rising(t.transitions) && (forall i :: 0 <= i < |t.transitions| ==> t.transitions[i] <= last)
    && forall now :: last <= now ==> Young(t.transitions, now, cfg.flapWindow * SEC) == Episodes(cfg, es, now, |es|)
  }

  lemma EpisodesStep(cfg: Config, es: seq<Event>, now: Instant)
    requires es != []
    ensures var n := |es| - 1;
            Episodes(cfg, es, now, |es|) ==
            Episodes(cfg, es[..n], now, n) + if Starts(cfg, es, n) && now - es[n].now <= cfg.flapWindow * SEC then 1 else 0
  {
    EpisodesPrefix(cfg, es, |es| - 1, now, |es| - 1);
  }

  lemma StartCounts(cfg: Config, es: seq<Event>, t: Track, last: Instant)
    requires es != [] && CountsEpisodes(cfg, es[..|es| - 1], t, last) && last <= es[|es| - 1].now
    requires Starts(cfg, es, |es| - 1)
    ensures var now := es[|es| - 1].now;
            var t' := RecordEpisode(cfg, t, now);
            CountsEpisodes(cfg, es, t', now) && |t'.transitions| == Episodes(cfg, es, now, |es|)
  {
    var now, window := es[|es| - 1].now, cfg.flapWindow * SEC;
    var ts := t.transitions + [now];
    forall later | now <= later
      ensures Young(DropStale(ts, now, window), later, window) == Episodes(cfg, es, later, |es|)
    {
      EpisodesStep(cfg, es, later);
      YoungSnoc(t.transitions, now, later, window);
      DropStaleCounts(ts, now, window, later);
    }
    EpisodesStep(cfg, es, now);
    YoungSnoc(t.transitions, now, now, window);
    DropStaleCounts(ts, now, window, now);
  }

  lemma NoStartCounts(cfg: Config, es: seq<Event>, t: Track, last: Instant)
    requires es != [] && CountsEpisodes(cfg, es[..|es| - 1], t, last) && last <= es[|es| - 1].now
    requires !Starts(cfg, es, |es| - 1)
    ensures CountsEpisodes(cfg, es, t, es[|es| - 1].now)
  {
    forall now | es[|es| - 1].now <= now
      ensures Young(t.transitions, now, cfg.flapWindow * SEC) == Episodes(cfg, es, now, |es|)
    {
      EpisodesStep(cfg, es, now);
    }
  }

  /** The step's bookkeeping of episodes, told from the history. */
  lemma TransitionsStep(cfg: Config, init: Track, es: seq<Event>)
    requires Initial(init) && es != []
    ensures var n := |es| - 1;
            var t, t' := RunTrack(cfg, init, es[..n]), RunTrack(cfg, init, es);
            t'.transitions == if Starts(cfg, es, n) then RecordEpisode(cfg, t, es[n].now).transitions else t.transitions
  {
    var n := |es| - 1;
    HiccupIff(cfg, init, es[..n]);
    SilenceKinds(cfg, es[n]);
    ObserveEpisodes(cfg, RunTrack(cfg, init, es[..n]), es[n]);
  }

  function LastTime(start: Instant, es: seq<Event>): Instant
  {
    if es == [] then start else es[|es| - 1].now
  }

  lemma BeginsBefore(start: Instant, es: seq<Event>, n: nat)
    requires Begins(start, es) && n <= |es|
    ensures Begins(start, es[..n]) && (n < |es| ==> LastTime(start, es[..n]) <= es[n].now)
  {
    assert n > 0 ==> es[..n][0] == es[0];
    assert 0 < n < |es| ==> es[..n][n - 1] == es[n - 1] && es[n - 1].now <= es[n].now;
  }

  lemma {:induction false} EpisodesCounted(cfg: Config, init: Track, start: Instant, es: seq<Event>)
    requires Initial(init) && Begins(start, es)
    ensures CountsEpisodes(cfg, es, RunTrack(cfg, init, es), LastTime(start, es))
  {
    if es != [] {
      var n := |es| - 1;
      var t := RunTrack(cfg, init, es[..n]);
      BeginsBefore(start, es, n);
      EpisodesCounted(cfg, init, start, es[..n]);
      TransitionsStep(cfg, init, es);
      if Starts(cfg, es, n) {
        StartCounts(cfg, es, t, LastTime(start, es[..n]));
      } else {
        NoStartCounts(cfg, es, t, LastTime(start, es[..n]));
      }
    }
  }

  // ---- Flapping ----

  function Threshold(cfg: Config): nat { if cfg.flapThreshold >= 2 then cfg.flapThreshold else 2 }

  /** Reading k begins an episode, the threshold of them reached. */
  ghost predicate Enough(cfg: Config, es: seq<Event>, k: nat)
    requires k < |es|
  {
    Episodes(cfg, es, es[k].now, k + 1) >= Threshold(cfg)
  }

  /** A flapping alert was sent at reading j, and no episode since began with
      fewer than the threshold in its window. */
  ghost predicate StandsFrom(cfg: Config, init: Track, es: seq<Event>, j: nat)
  {
    j < |es| && FlapFiredAt(cfg, init, es, j) && forall k :: j < k < |es| && Starts(cfg, es, k) ==> Enough(cfg, es, k)
  }

  ghost predicate FlapStanding(cfg: Config, init: Track, es: seq<Event>)
  {
    exists j: nat :: StandsFrom(cfg, init, es, j)
  }

  lemma SameBefore(cfg: Config, init: Track, es: seq<Event>, n: nat, k: nat)
    requires k < n <= |es|
    ensures FlapFiredAt(cfg, init, es[..n], k) <==> FlapFiredAt(cfg, init, es, k)
    ensures Starts(cfg, es[..n], k) <==> Starts(cfg, es, k)
    ensures Enough(cfg, es[..n], k) <==> Enough(cfg, es, k)
  {
    assert es[..n][..k] == es[..k] && es[..n][k] == es[k];
    EpisodesPrefix(cfg, es, n, es[k].now, k + 1);
  }

  lemma StandsFromStep(cfg: Config, init: Track, es: seq<Event>, j: nat)
    requires es != []
    ensures var n := |es| - 1;
            StandsFrom(cfg, init, es, j) <==>
            if j == n then FlapFiredAt(cfg, init, es, n)
            else StandsFrom(cfg, init, es[..n], j) && (Starts(cfg, es, n) ==> Enough(cfg, es, n))
  {
    var n := |es| - 1;
    if j < n {
      SameBefore(cfg, init, es, n, j);
      if StandsFrom(cfg, init, es, j) {
        forall k | j < k < n && Starts(cfg, es[..n], k) ensures Enough(cfg, es[..n], k) {
          SameBefore(cfg, init, es, n, k);
        }
      }
      if StandsFrom(cfg, init, es[..n], j) && (Starts(cfg, es, n) ==> Enough(cfg, es, n)) {
        forall k | j < k < |es| && Starts(cfg, es, k) ensures Enough(cfg, es, k) {
          if k < n {
            SameBefore(cfg, init, es, n, k);
          }
        }
      }
    }
  }

  lemma StandingStep(cfg: Config, init: Track, es: seq<Event>)
    requires es != []
    ensures var n := |es| - 1;
            FlapStanding(cfg, init, es) <==>
            FlapFiredAt(cfg, init, es, n) ||
            (FlapStanding(cfg, init, es[..n]) && (Starts(cfg, es, n) ==> Enough(cfg, es, n)))
  {
    var n := |es| - 1;
    StandsFromStep(cfg, init, es, n);
    if FlapStanding(cfg, init, es) {
      var j: nat :| StandsFrom(cfg, init, es, j);
      StandsFromStep(cfg, init, es, j);
    }
    if FlapStanding(cfg, init, es[..n]) {
      var j: nat :| StandsFrom(cfg, init, es[..n], j);
      StandsFromStep(cfg, init, es, j);
    }
  }

  lemma OtherRulesKeepFlap(cfg: Config, t: Track, silence: int, now: Instant)
    ensures OfflineStep(cfg, t, silence, now).0.flapAlerted == t.flapAlerted
    ensures OnlineStep(cfg, t, now).0.flapAlerted == t.flapAlerted
  {
  }

  lemma FlapFiredIff(cfg: Config, t: Track, e: Event)
    ensures var d := StepEvent(cfg, t, e).1;
            d.Some? && d.value.kind == NodeFlapping <==> IsReading(e) && FlapFires(cfg, t, SilenceOf(e), e.now)
  {
    if IsReading(e) {
      OtherRulesNeverFlap(cfg, FlapStep(cfg, t, SilenceOf(e), e.now), SilenceOf(e), e.now);
    }
  }

  /** How one event moves the flapping rule's memory. */
  lemma FlapAlertedStep(cfg: Config, t: Track, e: Event)
    ensures var (t', d) := StepEvent(cfg, t, e);
            t'.flapAlerted <==>
            || (d.Some? && d.value.kind == NodeFlapping)
            || (t.flapAlerted &&
                (Silent(cfg, e) && !t.hiccup ==> |RecordEpisode(cfg, t, e.now).transitions| >= FlapThreshold(cfg)))
  {
    FlapFiredIff(cfg, t, e);
    if IsReading(e) {
      OtherRulesKeepFlap(cfg, FlapStep(cfg, t, SilenceOf(e), e.now), SilenceOf(e), e.now);
    }
  }

  /** At the start of an episode the rule counts the episodes in the window. */
  lemma StartSees(cfg: Config, init: Track, start: Instant, es: seq<Event>)
    requires Initial(init) && Begins(start, es) && es != []
    ensures var n := |es| - 1;
            var t := RunTrack(cfg, init, es[..n]);
            && (Starts(cfg, es, n) <==> Silent(cfg, es[n]) && !t.hiccup)
            && (Starts(cfg, es, n) ==>
                  |RecordEpisode(cfg, t, es[n].now).transitions| == Episodes(cfg, es, es[n].now, |es|))
  {
    var n := |es| - 1;
    HiccupIff(cfg, init, es[..n]);
    SilenceKinds(cfg, es[n]);
    BeginsBefore(start, es, n);
    EpisodesCounted(cfg, init, start, es[..n]);
    if Starts(cfg, es, n) {
      StartCounts(cfg, es, RunTrack(cfg, init, es[..n]), LastTime(start, es[..n]));
    }
  }

  lemma {:induction false} FlapAlertedIff(cfg: Config, init: Track, start: Instant, es: seq<Event>)
    requires Initial(init) && Begins(start, es)
    ensures RunTrack(cfg, init, es).flapAlerted <==> FlapStanding(cfg, init, es)
  {
    if es != [] {
      var n := |es| - 1;
      BeginsBefore(start, es, n);
      FlapAlertedIff(cfg, init, start, es[..n]);
      StandingStep(cfg, init, es);
      StartSees(cfg, init, start, es);
      FlapAlertedStep(cfg, RunTrack(cfg, init, es[..n]), es[n]);
    }
  }

  // ---- Open alerts ----

  /** An offline alert, sent or seeded, awaits its recovery. */
  ghost predicate Open(cfg: Config, init: Track, es: seq<Event>)
  {
    OpenSince(init.alerted, Fires(cfg, init, es), |Fires(cfg, init, es)|)
  }

  /** And was escalated since. */
  ghost predicate Escalated(cfg: Config, init: Track, es: seq<Event>)
  {
    EscalatedSince(Fires(cfg, init, es))
  }

  ghost predicate EscalatedSince(fires: seq<Sent>)
  {
    exists i :: 0 <= i < |fires| && fires[i].kind == NodeOfflineLong &&
                forall k :: i < k < |fires| ==> fires[k].kind != NodeRecovered
  }

  lemma OpenIsAlerted(seeded: bool, fires: seq<Sent>)
    requires Replay(seeded, fires).Some?
    ensures Replay(seeded, fires).value.alerted <==> OpenSince(seeded, fires, |fires|)
  {
    assert fires[..|fires|] == fires && fires[..0] == [];
    if Replay(seeded, fires).value.alerted {
      OpenedBefore(seeded, fires, |fires|);
    }
    if seeded && forall k :: 0 <= k < |fires| ==> fires[k].kind != NodeRecovered {
      OpenUntilRecovered(seeded, fires, 0, |fires|);
    } else if OpenSince(seeded, fires, |fires|) {
      var i :| 0 <= i < |fires| && fires[i].kind == NodeOffline &&
               forall k :: i < k < |fires| ==> fires[k].kind != NodeRecovered;
      ReplayPrefix(seeded, fires, i + 1);
      assert fires[..i + 1][..i] == fires[..i];
      OpenUntilRecovered(seeded, fires, i + 1, |fires|);
    }
  }

  lemma {:induction false} EscalatedBefore(seeded: bool, fires: seq<Sent>)
    requires Replay(seeded, fires).Some? && Replay(seeded, fires).value.escalated
    ensures EscalatedSince(fires)
  {
    var n := |fires| - 1;
    if fires[n].kind != NodeOfflineLong {
      EscalatedBefore(seeded, fires[..n]);
      var before := fires[..n];
      var i :| 0 <= i < |before| && before[i].kind == NodeOfflineLong &&
               forall k :: i < k < |before| ==> before[k].kind != NodeRecovered;
      assert fires[i] == before[i];
      forall k | i < k < |fires| ensures fires[k].kind != NodeRecovered {
        assert k < n ==> fires[k] == before[k];
      }
    }
  }

  lemma EscalatedIsEscalated(seeded: bool, fires: seq<Sent>)
    requires Replay(seeded, fires).Some?
    ensures Replay(seeded, fires).value.escalated <==> EscalatedSince(fires)
  {
    assert fires[..|fires|] == fires;
    if Replay(seeded, fires).value.escalated {
      EscalatedBefore(seeded, fires);
    }
    if EscalatedSince(fires) {
      var i :| 0 <= i < |fires| && fires[i].kind == NodeOfflineLong &&
               forall k :: i < k < |fires| ==> fires[k].kind != NodeRecovered;
      ReplayPrefix(seeded, fires, i + 1);
      assert fires[..i + 1][..i] == fires[..i];
      OpenUntilRecovered(seeded, fires, i + 1, |fires|);
    }
  }

  lemma OpenIff(cfg: Config, init: Track, es: seq<Event>)
    requires Initial(init)
    ensures RunTrack(cfg, init, es).alerted <==> Open(cfg, init, es)
    ensures RunTrack(cfg, init, es).longAlerted <==> Escalated(cfg, init, es)
  {
    AlertsAlternate(cfg, init, es);
    OpenIsAlerted(init.alerted, Fires(cfg, init, es));
    EscalatedIsEscalated(init.alerted, Fires(cfg, init, es));
  }

  // ---- Throttling ----

  /** Every offline alert so far is at least the throttle old. */
  ghost predicate Cooled(cfg: Config, fires: seq<Sent>, now: Instant)
  {
    forall i :: 0 <= i < |fires| && fires[i].kind == NodeOffline ==> now - fires[i].at >= cfg.throttle * SEC
  }

  /** What is remembered was sent. */
  ghost predicate WasSent(t: Track, fires: seq<Sent>)
  {
    NodeOffline in t.lastSent ==> Sent(NodeOffline, t.lastSent[NodeOffline]) in fires
  }

  lemma {:induction false} RememberedWasSent(cfg: Config, init: Track, es: seq<Event>)
    requires Initial(init)
    ensures WasSent(RunTrack(cfg, init, es), Fires(cfg, init, es))
  {
    if es != [] {
      var before, e := es[..|es| - 1], es[|es| - 1];
      RememberedWasSent(cfg, init, before);
      ObserveThrottles(cfg, RunTrack(cfg, init, before), e);
    }
  }

  lemma SecondsIff(d: nat, n: nat)
    ensures Secs(d) >= n <==> d >= n * SEC
  {
  }

  lemma CooledIff(cfg: Config, init: Track, start: Instant, es: seq<Event>, i: nat)
    requires Initial(init) && Begins(start, es) && i < |es|
    ensures !Throttled(RunTrack(cfg, init, es[..i]), NodeOffline, es[i].now, cfg.throttle) <==>
            Cooled(cfg, Fires(cfg, init, es[..i]), es[i].now)
  {
    var t, fires, now := RunTrack(cfg, init, es[..i]), Fires(cfg, init, es[..i]), es[i].now;
    BeginsBefore(start, es, i);
    ThrottleInvariant(cfg, init, es[..i]);
    RememberedWasSent(cfg, init, es[..i]);
    if NodeOffline in t.lastSent {
      var last := t.lastSent[NodeOffline];
      var k :| 0 <= k < |fires| && fires[k] == Sent(NodeOffline, last);
      SecondsIff(Since(now, last), cfg.throttle);
    }
  }

  // ---- Since when the node is down, or fresh ----

  predicate RecoveredAt(cfg: Config, init: Track, es: seq<Event>, k: nat)
    requires k < |es|
  {
    var d := DecisionAt(cfg, init, es, k);
    d.Some? && d.value.kind == NodeRecovered
  }

  /** Since when the node counts as down: the first down reading after the last
      fresh one, or the last seed while an alert was open.  A reading that fires
      a flapping alert changes nothing. */
  ghost function DownSince(cfg: Config, start: Instant, o: Opening, es: seq<Event>): Option<Instant>
  {
    var init := Opened(cfg, start, o);
    if es == [] then (if o.Seeded? && o.already then Some(start) else None)
    else
      var n := |es| - 1;
      var before, e := DownSince(cfg, start, o, es[..n]), es[n];
      if e.Reseed? then (if Open(cfg, init, es[..n]) then Some(e.now) else before)
      else if e.heartbeat.None? || FlapFiredAt(cfg, init, es, n) then before
      else if !Down(cfg, e) then None
      else if before.Some? then before else Some(e.now)
  }

  /** Since when the node is fresh with its alert open. */
  ghost function FreshSince(cfg: Config, init: Track, es: seq<Event>): Option<Instant>
  {
    if es == [] then None
    else
      var n := |es| - 1;
      var before, e := FreshSince(cfg, init, es[..n]), es[n];
      if e.Reseed? || e.heartbeat.None? || FlapFiredAt(cfg, init, es, n) then before
      else if Down(cfg, e) || !Open(cfg, init, es[..n]) || RecoveredAt(cfg, init, es, n) then None
      else if before.Some? then before else Some(e.now)
  }

  /** How one event moves the two times, from what is told of the track. */
  lemma DownStep(cfg: Config, t: Track, e: Event)
    ensures var (t', d) := StepEvent(cfg, t, e);
            t'.offlineSince ==
            if e.Reseed? then (if t.alerted then Some(e.now) else t.offlineSince)
            else if e.heartbeat.None? || (d.Some? && d.value.kind == NodeFlapping) then t.offlineSince
            else if !Offline(cfg, e) then None
            else if t.offlineSince.Some? then t.offlineSince else Some(e.now)
  {
    FlapFiredIff(cfg, t, e);
    if IsReading(e) {
      var t1 := FlapStep(cfg, t, SilenceOf(e), e.now);
      assert t1.offlineSince == t.offlineSince;
      RulesDown(cfg, t1, SilenceOf(e), e.now);
    }
  }

  lemma RulesDown(cfg: Config, t: Track, silence: int, now: Instant)
    ensures OfflineStep(cfg, t, silence, now).0.offlineSince == (if t.offlineSince.Some? then t.offlineSince else Some(now))
    ensures OnlineStep(cfg, t, now).0.offlineSince == None
  {
  }

  lemma OnlineFresh(cfg: Config, t: Track, now: Instant)
    ensures var (t', d) := OnlineStep(cfg, t, now);
            t'.okSince == if !t.alerted then t.okSince
                          else if d.Some? then None
                          else if t.okSince.Some? then t.okSince else Some(now)
  {
  }

  lemma FreshStep(cfg: Config, t: Track, e: Event)
    requires !t.alerted ==> t.okSince.None?
    ensures var (t', d) := StepEvent(cfg, t, e);
            && (!t'.alerted ==> t'.okSince.None?)
            && t'.okSince ==
               if e.Reseed? || e.heartbeat.None? || (d.Some? && d.value.kind == NodeFlapping) then t.okSince
               else if Offline(cfg, e) || !t.alerted || (d.Some? && d.value.kind == NodeRecovered) then None
               else if t.okSince.Some? then t.okSince else Some(e.now)
  {
    FlapFiredIff(cfg, t, e);
    if IsReading(e) {
      var t1 := FlapStep(cfg, t, SilenceOf(e), e.now);
      assert t1.okSince == t.okSince && t1.alerted == t.alerted;
      OfflineOkSince(cfg, t1, SilenceOf(e), e.now);
      OnlineFresh(cfg, t1, e.now);
    }
  }

  lemma {:induction false} DownIff(cfg: Config, start: Instant, o: Opening, es: seq<Event>)
    ensures Lived(cfg, start, o, es).offlineSince == DownSince(cfg, start, o, es)
  {
    if es != [] {
      var n := |es| - 1;
      DownIff(cfg, start, o, es[..n]);
      OpenIff(cfg, Opened(cfg, start, o), es[..n]);
      SilenceKinds(cfg, es[n]);
      DownStep(cfg, Lived(cfg, start, o, es[..n]), es[n]);
    }
  }

  lemma {:induction false} FreshIff(cfg: Config, init: Track, es: seq<Event>)
    requires Initial(init)
    ensures var t := RunTrack(cfg, init, es);
            t.okSince == FreshSince(cfg, init, es) && (!t.alerted ==> t.okSince.None?)
  {
    if es != [] {
      var n := |es| - 1;
      FreshIff(cfg, init, es[..n]);
      OpenIff(cfg, init, es[..n]);
      SilenceKinds(cfg, es[n]);
      FreshStep(cfg, RunTrack(cfg, init, es[..n]), es[n]);
    }
  }

  lemma {:induction false} SinceIsPast(cfg: Config, start: Instant, o: Opening, es: seq<Event>)
    requires Begins(start, es)
    ensures var down, up := DownSince(cfg, start, o, es), FreshSince(cfg, Opened(cfg, start, o), es);
            && (down.Some? ==> down.value <= LastTime(start, es))
            && (up.Some? ==> up.value <= LastTime(start, es))
  {
    if es != [] {
      var n := |es| - 1;
      BeginsBefore(start, es, n);
      SinceIsPast(cfg, start, o, es[..n]);
    }
  }

  // ---- When each alert fires ----

  ghost predicate Grace(cfg: Config, start: Instant, o: Opening, es: seq<Event>, i: nat)
    requires i < |es|
  {
    GraceInForce(cfg, start, WithOpening(start, o, es[..i]), es[i].now)
  }

  /** The alert at reading i is of this kind. */
  predicate FiresAt(cfg: Config, init: Track, es: seq<Event>, i: nat, kind: Kind)
    requires i < |es|
  {
    var d := DecisionAt(cfg, init, es, i);
    d.Some? && d.value.kind == kind
  }

  /** How long the node has been down at reading i: by its heartbeat, or since
      it was first seen down. */
  ghost predicate DownFor(cfg: Config, start: Instant, o: Opening, es: seq<Event>, i: nat, secs: nat)
    requires i < |es|
  {
    var since := DownSince(cfg, start, o, es[..i]);
    SilentFor(es[i], secs) || es[i].now - (if since.Some? then since.value else es[i].now) >= secs * SEC
  }

  /** A flapping alert fires exactly when an episode begins, the threshold of
      them is reached within the window, the grace is over and no earlier
      flapping alert still stands; it tells their number. */
  lemma FlappingFiresIff(cfg: Config, start: Instant, o: Opening, es: seq<Event>, i: nat)
    requires Begins(start, es) && i < |es|
    ensures var init := Opened(cfg, start, o);
            && (FiresAt(cfg, init, es, i, NodeFlapping) <==>
                  && Starts(cfg, es, i) && Enough(cfg, es, i) && !Grace(cfg, start, o, es, i)
                  && !FlapStanding(cfg, init, es[..i]))
            && (FiresAt(cfg, init, es, i, NodeFlapping) ==>
                  DecisionAt(cfg, init, es, i).value.duration == Episodes(cfg, es, es[i].now, i + 1))
  {
    var init := Opened(cfg, start, o);
    var t := RunTrack(cfg, init, es[..i]);
    StartSeesAt(cfg, init, start, es, i);
    BeginsBefore(start, es, i);
    FlapAlertedIff(cfg, init, start, es[..i]);
    NewIffGrace(cfg, start, o, es, i);
    FlapFiredIff(cfg, t, es[i]);
    if IsReading(es[i]) {
      FlapRule(cfg, t, es[i]);
    }
  }

  lemma StartSeesAt(cfg: Config, init: Track, start: Instant, es: seq<Event>, i: nat)
    requires Initial(init) && Begins(start, es) && i < |es|
    ensures var t := RunTrack(cfg, init, es[..i]);
            && (Starts(cfg, es, i) <==> Silent(cfg, es[i]) && !t.hiccup)
            && (Starts(cfg, es, i) ==>
                  |RecordEpisode(cfg, t, es[i].now).transitions| == Episodes(cfg, es, es[i].now, i + 1))
  {
    var upto := es[..i + 1];
    assert upto[..i] == es[..i] && upto[i] == es[i];
    BeginsBefore(start, es, i + 1);
    StartSees(cfg, init, start, upto);
    EpisodesPrefix(cfg, es, i + 1, es[i].now, i + 1);
  }

  lemma FlapRule(cfg: Config, t: Track, e: Event)
    requires IsReading(e)
    ensures var count := |RecordEpisode(cfg, t, e.now).transitions|;
            && (FlapFires(cfg, t, SilenceOf(e), e.now) <==>
                  Silent(cfg, e) && !t.hiccup && count >= Threshold(cfg) && !t.flapAlerted && !IsNew(cfg, t, e.now))
            && (FlapFires(cfg, t, SilenceOf(e), e.now) ==> StepEvent(cfg, t, e).1 == Some(Fire(NodeFlapping, count)))
  {
  }

  /** The offline rule on a track that is told by the history. */
  lemma OfflineRule(cfg: Config, t: Track, e: Event)
    requires Offline(cfg, e) && !FlapFires(cfg, t, SilenceOf(e), e.now)
    ensures var since := if t.offlineSince.Some? then t.offlineSince.value else e.now;
            var lasted := Max(SilenceOf(e), Secs(Since(e.now, since)));
            var isNew, overdue := IsNew(cfg, t, e.now), lasted >= cfg.offlineLong && lasted >= 600;
            StepEvent(cfg, t, e).1 ==
            if isNew then None
            else if t.alerted then (if !t.longAlerted && overdue then Some(Fire(NodeOfflineLong, lasted)) else None)
            else if Throttled(t, NodeOffline, e.now, cfg.throttle) then None
            else Some(Fire(NodeOffline, lasted))
  {
    var t1 := FlapStep(cfg, t, SilenceOf(e), e.now);
    assert t1.offlineSince == t.offlineSince && t1.firstSeen == t.firstSeen && t1.alerted == t.alerted;
    assert t1.longAlerted == t.longAlerted && t1.lastSent == t.lastSent;
  }

  lemma OnlineRule(cfg: Config, t: Track, e: Event)
    requires IsReading(e) && !Offline(cfg, e) && !FlapFires(cfg, t, SilenceOf(e), e.now)
    ensures var stable := Secs(Since(e.now, if t.okSince.Some? then t.okSince.value else e.now));
            StepEvent(cfg, t, e).1 ==
            if t.alerted && stable >= cfg.recoveryGrace then Some(Fire(NodeRecovered, stable)) else None
  {
    var t1 := FlapStep(cfg, t, SilenceOf(e), e.now);
    assert t1.okSince == t.okSince && t1.alerted == t.alerted;
  }

  lemma DownForIff(cfg: Config, start: Instant, o: Opening, es: seq<Event>, i: nat, secs: nat)
    requires Begins(start, es) && i < |es| && IsReading(es[i])
    ensures var since := Lived(cfg, start, o, es[..i]).offlineSince;
            DownFor(cfg, start, o, es, i, secs) <==>
            Max(SilenceOf(es[i]), Secs(Since(es[i].now, if since.Some? then since.value else es[i].now))) >= secs
  {
    var since := Lived(cfg, start, o, es[..i]).offlineSince;
    DownIff(cfg, start, o, es[..i]);
    BeginsBefore(start, es, i);
    SinceIsPast(cfg, start, o, es[..i]);
    SilentForIff(es[i], secs);
    SecondsIff(Since(es[i].now, if since.Some? then since.value else es[i].now), secs);
  }

  lemma Lasted(cfg: Config, start: Instant, o: Opening, es: seq<Event>, i: nat)
    requires Begins(start, es) && i < |es| && Offline(cfg, es[i])
    ensures var since := Lived(cfg, start, o, es[..i]).offlineSince;
            var lasted := Max(SilenceOf(es[i]), Secs(Since(es[i].now, if since.Some? then since.value else es[i].now)));
            lasted >= 0 && DownFor(cfg, start, o, es, i, lasted) && !DownFor(cfg, start, o, es, i, lasted + 1)
  {
    var since := Lived(cfg, start, o, es[..i]).offlineSince;
    var lasted := Max(SilenceOf(es[i]), Secs(Since(es[i].now, if since.Some? then since.value else es[i].now)));
    DownForIff(cfg, start, o, es, i, lasted);
    DownForIff(cfg, start, o, es, i, lasted + 1);
  }

  /** The alert tells the whole seconds the node has been down. */
  ghost predicate TellsDown(cfg: Config, start: Instant, o: Opening, es: seq<Event>, i: nat, d: Decision)
    requires i < |es|
  {
    d.Some? && d.value.duration >= 0 &&
    DownFor(cfg, start, o, es, i, d.value.duration) && !DownFor(cfg, start, o, es, i, d.value.duration + 1)
  }

  /** An offline alert fires exactly when the reading is down and fires no
      flapping alert, no alert is open, the grace is over and every offline
      alert so far is at least the throttle old. */
  lemma OfflineFiresIff(cfg: Config, start: Instant, o: Opening, es: seq<Event>, i: nat)
    requires Begins(start, es) && i < |es|
    ensures var init := Opened(cfg, start, o);
            && (FiresAt(cfg, init, es, i, NodeOffline) <==>
                  && Down(cfg, es[i]) && !FlapFiredAt(cfg, init, es, i) && !Open(cfg, init, es[..i])
                  && !Grace(cfg, start, o, es, i) && Cooled(cfg, Fires(cfg, init, es[..i]), es[i].now))
            && (FiresAt(cfg, init, es, i, NodeOffline) ==> TellsDown(cfg, start, o, es, i, DecisionAt(cfg, init, es, i)))
  {
    var init := Opened(cfg, start, o);
    var t := RunTrack(cfg, init, es[..i]);
    SilenceKinds(cfg, es[i]);
    FlapFiredIff(cfg, t, es[i]);
    OpenIff(cfg, init, es[..i]);
    NewIffGrace(cfg, start, o, es, i);
    CooledIff(cfg, init, start, es, i);
    if Down(cfg, es[i]) && !FlapFiredAt(cfg, init, es, i) {
      OfflineRule(cfg, t, es[i]);
      Lasted(cfg, start, o, es, i);
    } else if FiresAt(cfg, init, es, i, NodeOffline) {
      FireReasons(cfg, t, es[i]);
    }
  }

  /** An escalation fires exactly when the reading is down and fires no flapping
      alert, an alert is open and not yet escalated, the grace is over, and the
      node has been down for the long threshold and for ten minutes. */
  lemma EscalationFiresIff(cfg: Config, start: Instant, o: Opening, es: seq<Event>, i: nat)
    requires Begins(start, es) && i < |es|
    ensures var init := Opened(cfg, start, o);
            && (FiresAt(cfg, init, es, i, NodeOfflineLong) <==>
                  && Down(cfg, es[i]) && !FlapFiredAt(cfg, init, es, i) && Open(cfg, init, es[..i])
                  && !Escalated(cfg, init, es[..i]) && !Grace(cfg, start, o, es, i)
                  && DownFor(cfg, start, o, es, i, cfg.offlineLong) && DownFor(cfg, start, o, es, i, 600))
            && (FiresAt(cfg, init, es, i, NodeOfflineLong) ==>
                  TellsDown(cfg, start, o, es, i, DecisionAt(cfg, init, es, i)))
  {
    var init := Opened(cfg, start, o);
    var t := RunTrack(cfg, init, es[..i]);
    SilenceKinds(cfg, es[i]);
    FlapFiredIff(cfg, t, es[i]);
    OpenIff(cfg, init, es[..i]);
    NewIffGrace(cfg, start, o, es, i);
    if Down(cfg, es[i]) && !FlapFiredAt(cfg, init, es, i) {
      DownForIff(cfg, start, o, es, i, cfg.offlineLong);
      DownForIff(cfg, start, o, es, i, 600);
      OfflineRule(cfg, t, es[i]);
      Lasted(cfg, start, o, es, i);
    } else if FiresAt(cfg, init, es, i, NodeOfflineLong) {
      FireReasons(cfg, t, es[i]);
    }
  }

  /** A recovery fires exactly when the reading is fresh and fires no flapping
      alert, an alert is open and the node has been fresh for the grace period. */
  lemma RecoveryFiresIff(cfg: Config, start: Instant, o: Opening, es: seq<Event>, i: nat)
    requires Begins(start, es) && i < |es|
    ensures var init := Opened(cfg, start, o);
            var since := FreshSince(cfg, init, es[..i]);
            var stable := es[i].now - (if since.Some? then since.value else es[i].now);
            && (FiresAt(cfg, init, es, i, NodeRecovered) <==>
                  && IsReading(es[i]) && !Down(cfg, es[i]) && !FlapFiredAt(cfg, init, es, i) && Open(cfg, init, es[..i])
                  && stable >= cfg.recoveryGrace * SEC)
            && (FiresAt(cfg, init, es, i, NodeRecovered) ==>
                  var d := DecisionAt(cfg, init, es, i).value.duration; d * SEC <= stable < (d + 1) * SEC)
  {
    var init := Opened(cfg, start, o);
    var t := RunTrack(cfg, init, es[..i]);
    SilenceKinds(cfg, es[i]);
    FlapFiredIff(cfg, t, es[i]);
    OpenIff(cfg, init, es[..i]);
    FreshIff(cfg, init, es[..i]);
    BeginsBefore(start, es, i);
    SinceIsPast(cfg, start, o, es[..i]);
    SecondsIff(Since(es[i].now, if t.okSince.Some? then t.okSince.value else es[i].now), cfg.recoveryGrace);
    if IsReading(es[i]) && !Down(cfg, es[i]) && !FlapFiredAt(cfg, init, es, i) {
      OnlineRule(cfg, t, es[i]);
    } else if FiresAt(cfg, init, es, i, NodeRecovered) {
      FireReasons(cfg, t, es[i]);
    }
  }

  /** No other alert comes from the heartbeat rules, and none without a heartbeat. */
  lemma NothingElseFires(cfg: Config, init: Track, es: seq<Event>, i: nat)
    requires i < |es| && DecisionAt(cfg, init, es, i).Some?
    ensures es[i].Reading? && es[i].heartbeat.Some?
    ensures DecisionAt(cfg, init, es, i).value.kind in {NodeOffline, NodeOfflineLong, NodeRecovered, NodeFlapping}
  {
    FireReasons(cfg, RunTrack(cfg, init, es[..i]), es[i]);
  }

  // ---- CPU ----

  predicate LowLoad(cfg: Config, r: CpuReading)
  {
    r.pct.Some? && r.pct.value < cfg.cpuReset && r.pct.value < cfg.cpuThreshold - 1.0
  }

  ghost predicate CpuOrdered(rs: seq<CpuReading>)
  {
    forall i, j :: 0 <= i < j < |rs| ==> rs[i].now <= rs[j].now
  }

  /** The load was at the threshold at reading a and not low since. */
  ghost predicate HighFrom(cfg: Config, rs: seq<CpuReading>, a: nat, i: nat)
    requires i <= |rs|
  {
    a < i && High(cfg, rs[a]) && forall k :: a < k < i ==> !LowLoad(cfg, rs[k])
  }

  /** An alert was sent at reading k with no low reading since. */
  ghost predicate SentSince(cfg: Config, rs: seq<CpuReading>, k: nat, i: nat)
    requires i <= |rs|
  {
    k < i && CpuDecision(cfg, rs, k).Some? && forall j :: k < j < i ==> !LowLoad(cfg, rs[j])
  }

  /** An alert stands: none of the readings since it was low. */
  ghost predicate CpuStanding(cfg: Config, rs: seq<CpuReading>)
  {
    exists k: nat :: SentSince(cfg, rs, k, |rs|)
  }

  /** `since` is the time of the first high reading since the last low one. */
  ghost predicate FirstHigh(cfg: Config, rs: seq<CpuReading>, since: Instant, a: nat)
  {
    && HighFrom(cfg, rs, a, |rs|) && rs[a].now == since
    && forall b: nat :: HighFrom(cfg, rs, b, |rs|) ==> since <= rs[b].now
  }

  lemma HighFromStep(cfg: Config, rs: seq<CpuReading>, a: nat)
    requires rs != []
    ensures var n := |rs| - 1;
            HighFrom(cfg, rs, a, |rs|) <==>
            if a == n then High(cfg, rs[n]) else !LowLoad(cfg, rs[n]) && HighFrom(cfg, rs[..n], a, n)
  {
    var n := |rs| - 1;
    if a < n {
      assert rs[..n][a] == rs[a];
      if HighFrom(cfg, rs[..n], a, n) && !LowLoad(cfg, rs[n]) {
        forall k | a < k < |rs| ensures !LowLoad(cfg, rs[k]) {
          assert k < n ==> rs[..n][k] == rs[k];
        }
      }
      if HighFrom(cfg, rs, a, |rs|) {
        forall k | a < k < n ensures !LowLoad(cfg, rs[..n][k]) {
          assert rs[..n][k] == rs[k];
        }
      }
    }
  }

  lemma SentSinceStep(cfg: Config, rs: seq<CpuReading>, k: nat)
    requires rs != []
    ensures var n := |rs| - 1;
            SentSince(cfg, rs, k, |rs|) <==>
            if k == n then CpuDecision(cfg, rs, n).Some? else !LowLoad(cfg, rs[n]) && SentSince(cfg, rs[..n], k, n)
  {
    var n := |rs| - 1;
    if k < n {
      assert rs[..n][..k] == rs[..k] && rs[..n][k] == rs[k];
      if SentSince(cfg, rs[..n], k, n) && !LowLoad(cfg, rs[n]) {
        forall j | k < j < |rs| ensures !LowLoad(cfg, rs[j]) {
          assert j < n ==> rs[..n][j] == rs[j];
        }
      }
      if SentSince(cfg, rs, k, |rs|) {
        forall j | k < j < n ensures !LowLoad(cfg, rs[..n][j]) {
          assert rs[..n][j] == rs[j];
        }
      }
    }
  }

  /** A low load resets, a high one starts or goes on, any other changes nothing. */
  lemma CpuStep(cfg: Config, t: Option<CpuTrack>, r: CpuReading)
    ensures var (t', d) := ObserveCpu(cfg, t, r.pct, r.now);
            && (High(cfg, r) ==> t'.Some? && t'.value.highSince == (if t.Some? then t.value.highSince else r.now))
            && (High(cfg, r) ==> (t'.value.alerted <==> d.Some? || (t.Some? && t.value.alerted)))
            && (LowLoad(cfg, r) ==> t'.None?) && (!High(cfg, r) ==> d.None?)
            && (!High(cfg, r) && !LowLoad(cfg, r) ==> t' == t) && !(High(cfg, r) && LowLoad(cfg, r))
  {
  }

  lemma StandingCpuStep(cfg: Config, rs: seq<CpuReading>)
    requires rs != []
    ensures var n := |rs| - 1;
            CpuStanding(cfg, rs) <==>
            CpuDecision(cfg, rs, n).Some? || (!LowLoad(cfg, rs[n]) && CpuStanding(cfg, rs[..n]))
  {
    var n := |rs| - 1;
    SentSinceStep(cfg, rs, n);
    if CpuStanding(cfg, rs) {
      var k: nat :| SentSince(cfg, rs, k, |rs|);
      SentSinceStep(cfg, rs, k);
    }
    if CpuStanding(cfg, rs[..n]) {
      var k: nat :| SentSince(cfg, rs[..n], k, n);
      SentSinceStep(cfg, rs, k);
    }
  }

  lemma {:induction false} CpuStandingIff(cfg: Config, rs: seq<CpuReading>)
    ensures CpuStanding(cfg, rs) <==> CpuRun(cfg, rs).Some? && CpuRun(cfg, rs).value.alerted
  {
    if rs != [] {
      var n := |rs| - 1;
      CpuStandingIff(cfg, rs[..n]);
      CpuStep(cfg, CpuRun(cfg, rs[..n]), rs[n]);
      StandingCpuStep(cfg, rs);
    }
  }

  /** A high reading since the last low one is tracked. */
  lemma {:induction false} HighIsTracked(cfg: Config, rs: seq<CpuReading>, a: nat)
    requires HighFrom(cfg, rs, a, |rs|)
    ensures CpuRun(cfg, rs).Some?
  {
    var n := |rs| - 1;
    CpuStep(cfg, CpuRun(cfg, rs[..n]), rs[n]);
    HighFromStep(cfg, rs, a);
    if a < n {
      HighIsTracked(cfg, rs[..n], a);
    }
  }

  lemma {:induction false} TracksFirstHigh(cfg: Config, rs: seq<CpuReading>) returns (a: nat)
    requires CpuOrdered(rs) && CpuRun(cfg, rs).Some?
    ensures FirstHigh(cfg, rs, CpuRun(cfg, rs).value.highSince, a)
  {
    var n := |rs| - 1;
    var before := rs[..n];
    CpuStep(cfg, CpuRun(cfg, before), rs[n]);
    if CpuRun(cfg, before).Some? {
      a := TracksFirstHigh(cfg, before);
      HighFromStep(cfg, rs, a);
      forall b: nat | HighFrom(cfg, rs, b, |rs|) ensures rs[a].now <= rs[b].now {
        HighFromStep(cfg, rs, b);
        assert b < n ==> before[b] == rs[b];
      }
    } else {
      a := n;
      HighFromStep(cfg, rs, n);
      forall b: nat | HighFrom(cfg, rs, b, |rs|) ensures b == n {
        HighFromStep(cfg, rs, b);
        if b < n {
          HighIsTracked(cfg, before, b);
        }
      }
    }
  }

  /** A CPU alert fires exactly when the load is at the threshold, was so at a
      reading at least 60 seconds and the hold time ago with no low one since,
      and no alert was sent since the last low one. */
  lemma CpuFiresIff(cfg: Config, rs: seq<CpuReading>, i: nat)
    requires CpuOrdered(rs) && i < |rs|
    ensures CpuDecision(cfg, rs, i).Some? <==>
            && High(cfg, rs[i])
            && (exists a: nat :: HighFrom(cfg, rs[..i], a, i) && rs[i].now - rs[a].now >= 60 * SEC
                                 && rs[i].now - rs[a].now >= cfg.cpuHold * SEC)
            && !CpuStanding(cfg, rs[..i])
    ensures CpuDecision(cfg, rs, i).Some? ==>
              var f := CpuDecision(cfg, rs, i).value;
              f.kind == NodeCpuHigh &&
              exists a: nat :: a < i && FirstHigh(cfg, rs[..i], rs[a].now, a) &&
                               f.duration * SEC <= rs[i].now - rs[a].now < (f.duration + 1) * SEC
  {
    var before, t := rs[..i], CpuRun(cfg, rs[..i]);
    CpuStandingIff(cfg, before);
    CpuStep(cfg, t, rs[i]);
    if t.Some? {
      var a := TracksFirstHigh(cfg, before);
      assert HighFrom(cfg, before, a, i) && before[a] == rs[a] && rs[a].now <= rs[i].now;
      assert FirstHigh(cfg, before, rs[a].now, a);
      forall b: nat | HighFrom(cfg, before, b, i) ensures rs[a].now <= rs[b].now {
        assert before[b] == rs[b];
      }
    } else if exists a: nat :: HighFrom(cfg, before, a, i) && rs[i].now - rs[a].now >= 60 * SEC {
      var a: nat :| HighFrom(cfg, before, a, i) && rs[i].now - rs[a].now >= 60 * SEC;
      HighIsTracked(cfg, before, a);
    }
  }
}
