/** What the sequence of a node's alerts looks like, over every run of readings. */
module AlertRuns {
  import opened Collections
  import opened Numbers
  import opened AlertRules

  /** A reading of the node's heartbeat, or the per-tick re-seeding that passes
      the engine its own `is_alerted` back. */
  datatype Event =
    | Reading(heartbeat: Option<int>, nowMs: int, now: Instant)
    | Reseed(now: Instant, reachable: bool)

  datatype Sent = Sent(kind: Kind, at: Instant)

  function StepEvent(cfg: Config, t: Track, e: Event): (Track, Decision)
  {
    match e
    case Reading(heartbeat, nowMs, now) => Observe(cfg, t, heartbeat, nowMs, now)
    case Reseed(now, reachable) => (Seed(cfg, t, t.alerted, now, reachable), None)
  }

  function RunTrack(cfg: Config, init: Track, es: seq<Event>): Track
  {
    if es == [] then init else StepEvent(cfg, RunTrack(cfg, init, es[..|es| - 1]), es[|es| - 1]).0
  }

  function DecisionAt(cfg: Config, init: Track, es: seq<Event>, i: nat): Decision
    requires i < |es|
  {
    StepEvent(cfg, RunTrack(cfg, init, es[..i]), es[i]).1
  }

  /** The alerts sent, oldest first. */
  function Fires(cfg: Config, init: Track, es: seq<Event>): seq<Sent>
  {
    if es == [] then [] else
      var before, d := Fires(cfg, init, es[..|es| - 1]), DecisionAt(cfg, init, es, |es| - 1);
      if d.Some? then before + [Sent(d.value.kind, es[|es| - 1].now)] else before
  }

  /** A track as it is when a node is first observed or seeded from the database. */
  predicate Initial(t: Track)
  {
    t.transitions == [] && !t.flapAlerted && !t.hiccup && !t.longAlerted && t.lastSent == map[] && t.okSince == None
  }

  lemma FreshTracksAreInitial(cfg: Config, now: Instant, already: bool, reachable: bool)
    ensures Initial(NewTrack(now)) && !NewTrack(now).alerted
    ensures var t := Seed(cfg, NewTrack(now), already, now, reachable);
            Initial(t) && t.alerted == already
  {
  }

  ghost predicate Ordered(es: seq<Event>)
  {
    forall i, j :: 0 <= i < j < |es| ==> es[i].now <= es[j].now
  }

  // ---- Offline, escalation, recovery ----

  datatype Phase = Phase(alerted: bool, escalated: bool)

  /** The alternation an operator expects: an offline alert only when none is
      open, a recovery only when one is, one escalation while it is open. */
  function Replay(alerted: bool, fires: seq<Sent>): Option<Phase>
  {
    if fires == [] then Some(Phase(alerted, false)) else
      var before := Replay(alerted, fires[..|fires| - 1]);
      if before.None? then None
      else
        match fires[|fires| - 1].kind
        case NodeOffline => if before.value.alerted then None else Some(Phase(true, before.value.escalated))
        case NodeRecovered => if before.value.alerted then Some(Phase(false, false)) else None
        case NodeOfflineLong =>
          if before.value.alerted && !before.value.escalated then Some(Phase(true, true)) else None
        case _ => before
  }

  /** How one reading moves a track through the phases. */
  lemma ObservePhases(cfg: Config, t: Track, e: Event)
    ensures var (t', d) := StepEvent(cfg, t, e);
            match d
            case None => t'.alerted == t.alerted && t'.longAlerted == t.longAlerted
            case Some(f) =>
              match f.kind
              case NodeOffline => !t.alerted && t'.alerted && t'.longAlerted == t.longAlerted
              case NodeRecovered => t.alerted && !t'.alerted && !t'.longAlerted
              case NodeOfflineLong => t.alerted && !t.longAlerted && t'.alerted && t'.longAlerted
              case _ => t'.alerted == t.alerted && t'.longAlerted == t.longAlerted
  {
  }

  /** Every run's alerts follow the expected alternation, and the track's two
      flags are where the alternation stands. */
  lemma {:induction false} AlertsAlternate(cfg: Config, init: Track, es: seq<Event>)
    requires Initial(init)
    ensures var t := RunTrack(cfg, init, es);
            Replay(init.alerted, Fires(cfg, init, es)) == Some(Phase(t.alerted, t.longAlerted))
  {
    if es != [] {
      var before, e := es[..|es| - 1], es[|es| - 1];
      AlertsAlternate(cfg, init, before);
      ObservePhases(cfg, RunTrack(cfg, init, before), e);
      var d := DecisionAt(cfg, init, es, |es| - 1);
      if d.Some? {
        var sent := Fires(cfg, init, before);
        assert (sent + [Sent(d.value.kind, e.now)])[..|sent|] == sent;
      }
    }
  }

  lemma {:induction false} ReplayPrefix(alerted: bool, fires: seq<Sent>, n: nat)
    requires n <= |fires| && Replay(alerted, fires).Some?
    ensures Replay(alerted, fires[..n]).Some?
  {
    if n < |fires| {
      assert fires[..|fires| - 1][..n] == fires[..n];
      ReplayPrefix(alerted, fires[..|fires| - 1], n);
    } else {
      assert fires[..n] == fires;
    }
  }

  /** Until the next recovery an open alert stays open and an escalation stays made. */
  lemma {:induction false} OpenUntilRecovered(alerted: bool, fires: seq<Sent>, i: nat, j: nat)
    requires i <= j <= |fires| && Replay(alerted, fires).Some?
    requires forall k :: i <= k < j ==> fires[k].kind != NodeRecovered
    ensures Replay(alerted, fires[..i]).Some? && Replay(alerted, fires[..j]).Some?
    ensures Replay(alerted, fires[..i]).value.alerted ==> Replay(alerted, fires[..j]).value.alerted
    ensures Replay(alerted, fires[..i]).value.escalated ==> Replay(alerted, fires[..j]).value.escalated
    decreases j - i
  {
    ReplayPrefix(alerted, fires, i);
    ReplayPrefix(alerted, fires, j);
    if i < j {
      OpenUntilRecovered(alerted, fires, i, j - 1);
      assert fires[..j][..j - 1] == fires[..j - 1];
    }
  }

  /** Two offline alerts have a recovery between them. */
  lemma OfflinesSeparated(cfg: Config, init: Track, es: seq<Event>, i: nat, j: nat)
    requires Initial(init) && i < j < |Fires(cfg, init, es)|
    requires Fires(cfg, init, es)[i].kind == NodeOffline && Fires(cfg, init, es)[j].kind == NodeOffline
    ensures exists k :: i < k < j && Fires(cfg, init, es)[k].kind == NodeRecovered
  {
    var fires := Fires(cfg, init, es);
    AlertsAlternate(cfg, init, es);
    ReplayPrefix(init.alerted, fires, i + 1);
    ReplayPrefix(init.alerted, fires, j + 1);
    assert fires[..i + 1][..i] == fires[..i] && fires[..j + 1][..j] == fires[..j];
    if forall k :: i + 1 <= k < j ==> fires[k].kind != NodeRecovered {
      OpenUntilRecovered(init.alerted, fires, i + 1, j);
    }
  }

  /** A recovery answers an offline alert or a seeded one, with no recovery in between. */
  lemma RecoveryAnswersOffline(cfg: Config, init: Track, es: seq<Event>, j: nat)
    requires Initial(init) && j < |Fires(cfg, init, es)| && Fires(cfg, init, es)[j].kind == NodeRecovered
    ensures var fires := Fires(cfg, init, es);
            OpenSince(init.alerted, fires, j)
  {
    var fires := Fires(cfg, init, es);
    AlertsAlternate(cfg, init, es);
    ReplayPrefix(init.alerted, fires, j + 1);
    assert fires[..j + 1][..j] == fires[..j];
    OpenedBefore(init.alerted, fires, j);
  }

  /** An alert is open before position `j`: an offline fire, or the seed, with
      no recovery since. */
  ghost predicate OpenSince(seeded: bool, fires: seq<Sent>, j: nat)
    requires j <= |fires|
  {
    || (seeded && forall k :: 0 <= k < j ==> fires[k].kind != NodeRecovered)
    || exists i :: 0 <= i < j && fires[i].kind == NodeOffline && forall k :: i < k < j ==> fires[k].kind != NodeRecovered
  }

  lemma {:induction false} OpenedBefore(seeded: bool, fires: seq<Sent>, j: nat)
    requires j <= |fires| && Replay(seeded, fires[..j]).Some? && Replay(seeded, fires[..j]).value.alerted
    ensures OpenSince(seeded, fires, j)
  {
    if j > 0 {
      assert fires[..j][..j - 1] == fires[..j - 1];
      if fires[j - 1].kind != NodeOffline {
        OpenedBefore(seeded, fires, j - 1);
      }
    }
  }

  lemma EscalationsSeparated(alerted: bool, fires: seq<Sent>, i: nat, j: nat)
    requires Replay(alerted, fires).Some? && i < j < |fires|
    requires fires[i].kind == NodeOfflineLong && fires[j].kind == NodeOfflineLong
    ensures exists k :: i < k < j && fires[k].kind == NodeRecovered
  {
    ReplayPrefix(alerted, fires, i + 1);
    ReplayPrefix(alerted, fires, j + 1);
    assert fires[..i + 1][..i] == fires[..i] && fires[..j + 1][..j] == fires[..j];
    if forall k :: i + 1 <= k < j ==> fires[k].kind != NodeRecovered {
      OpenUntilRecovered(alerted, fires, i + 1, j);
    }
  }

  /** An escalation happens while an alert is open, and at most once per alert. */
  lemma EscalatedOnce(cfg: Config, init: Track, es: seq<Event>, i: nat, j: nat)
    requires Initial(init) && i <= j < |Fires(cfg, init, es)|
    requires Fires(cfg, init, es)[i].kind == NodeOfflineLong && Fires(cfg, init, es)[j].kind == NodeOfflineLong
    ensures var fires := Fires(cfg, init, es);
            && OpenSince(init.alerted, fires, j)
            && (i < j ==> exists k :: i < k < j && fires[k].kind == NodeRecovered)
  {
    var fires := Fires(cfg, init, es);
    AlertsAlternate(cfg, init, es);
    EscalationIsOpen(init.alerted, fires, j);
    if i < j {
      EscalationsSeparated(init.alerted, fires, i, j);
    }
  }

  lemma EscalationIsOpen(alerted: bool, fires: seq<Sent>, j: nat)
    requires Replay(alerted, fires).Some? && j < |fires| && fires[j].kind == NodeOfflineLong
    ensures OpenSince(alerted, fires, j)
  {
    ReplayPrefix(alerted, fires, j + 1);
    assert fires[..j + 1][..j] == fires[..j];
    OpenedBefore(alerted, fires, j);
  }

  // ---- Throttling ----

  /** The remembered time is that of the latest offline alert. */
  ghost predicate RemembersLast(t: Track, fires: seq<Sent>)
  {
    forall i :: 0 <= i < |fires| && fires[i].kind == NodeOffline ==>
      NodeOffline in t.lastSent && fires[i].at <= t.lastSent[NodeOffline]
  }

  ghost predicate Spaced(fires: seq<Sent>, gap: int)
  {
    forall i, j :: 0 <= i < j < |fires| && fires[i].kind == NodeOffline && fires[j].kind == NodeOffline ==>
      fires[j].at - fires[i].at >= gap
  }

  lemma OfflineThrottles(cfg: Config, t: Track, silence: int, now: Instant)
    ensures var (t', d) := OfflineStep(cfg, t, silence, now);
            if d.Some? && d.value.kind == NodeOffline
            then t'.lastSent == t.lastSent[NodeOffline := now] && !Throttled(t, NodeOffline, now, cfg.throttle)
            else t'.lastSent == t.lastSent
  {
  }

  lemma OnlineThrottles(cfg: Config, t: Track, now: Instant)
    ensures var (t', d) := OnlineStep(cfg, t, now);
            t'.lastSent == t.lastSent && (d.Some? ==> d.value.kind == NodeRecovered)
  {
  }

  /** Only an offline alert is remembered, and only an unthrottled one is sent. */
  lemma ObserveThrottles(cfg: Config, t: Track, e: Event)
    ensures var (t', d) := StepEvent(cfg, t, e);
            if d.Some? && d.value.kind == NodeOffline
            then t'.lastSent == t.lastSent[NodeOffline := e.now] && !Throttled(t, NodeOffline, e.now, cfg.throttle)
            else t'.lastSent == t.lastSent
  {
    if e.Reading? && e.heartbeat.Some? {
      var silence := SilenceSec(e.nowMs, e.heartbeat.value);
      var t1 := FlapStep(cfg, t, silence, e.now);
      assert t1.lastSent == t.lastSent;
      OfflineThrottles(cfg, t1, silence, e.now);
      OnlineThrottles(cfg, t1, e.now);
    }
  }

  lemma {:induction false} ThrottleInvariant(cfg: Config, init: Track, es: seq<Event>)
    requires Initial(init) && Ordered(es)
    ensures RemembersLast(RunTrack(cfg, init, es), Fires(cfg, init, es))
    ensures Spaced(Fires(cfg, init, es), cfg.throttle * SEC)
    ensures es != [] && NodeOffline in RunTrack(cfg, init, es).lastSent ==>
              RunTrack(cfg, init, es).lastSent[NodeOffline] <= es[|es| - 1].now
    ensures es == [] ==> NodeOffline !in RunTrack(cfg, init, es).lastSent
  {
    if es != [] {
      var before, e := es[..|es| - 1], es[|es| - 1];
      ThrottleInvariant(cfg, init, before);
      var t, sent := RunTrack(cfg, init, before), Fires(cfg, init, before);
      ObserveThrottles(cfg, t, e);
      var d := DecisionAt(cfg, init, es, |es| - 1);
      assert before != [] ==> before[|before| - 1].now <= e.now;
      if d.Some? && d.value.kind == NodeOffline {
        OfflineKeepsSpacing(cfg, t, sent, e.now);
      }
    }
  }

  lemma OfflineKeepsSpacing(cfg: Config, t: Track, sent: seq<Sent>, now: Instant)
    requires RemembersLast(t, sent) && Spaced(sent, cfg.throttle * SEC)
    requires NodeOffline in t.lastSent ==> t.lastSent[NodeOffline] <= now
    requires !Throttled(t, NodeOffline, now, cfg.throttle)
    ensures Spaced(sent + [Sent(NodeOffline, now)], cfg.throttle * SEC)
  {
    var fires := sent + [Sent(NodeOffline, now)];
    forall i, j | 0 <= i < j < |fires| && fires[i].kind == NodeOffline && fires[j].kind == NodeOffline
      ensures fires[j].at - fires[i].at >= cfg.throttle * SEC
    {
      if j == |sent| {
        var last := t.lastSent[NodeOffline];
        assert sent[i].at <= last;
        WholeSeconds(now - last, cfg.throttle);
      }
    }
  }

  lemma WholeSeconds(d: nat, n: nat)
    requires Secs(d) >= n
    ensures d >= n * SEC
  {
  }

  /** Two offline alerts of a node are at least the throttle apart. */
  lemma OfflinesThrottled(cfg: Config, init: Track, es: seq<Event>, i: nat, j: nat)
    requires Initial(init) && Ordered(es) && i < j < |Fires(cfg, init, es)|
    requires Fires(cfg, init, es)[i].kind == NodeOffline && Fires(cfg, init, es)[j].kind == NodeOffline
    ensures Fires(cfg, init, es)[j].at - Fires(cfg, init, es)[i].at >= cfg.throttle * SEC
  {
    ThrottleInvariant(cfg, init, es);
  }
}
