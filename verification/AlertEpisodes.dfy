/** What must have been observed before a flapping, recovery or CPU alert. */
module AlertEpisodes {
  import opened Collections
  import opened Numbers
  import opened AlertRules
  import opened AlertRuns

  // ---- Flapping ----

  predicate IsReading(e: Event) { e.Reading? && e.heartbeat.Some? }

  function SilenceOf(e: Event): int
    requires IsReading(e)
  {
    SilenceSec(e.nowMs, e.heartbeat.value)
  }

  /** The heartbeat has been missing for at least the flap gap. */
  predicate Silent(cfg: Config, e: Event) { IsReading(e) && SilenceOf(e) >= FlapGap(cfg) }

  /** The heartbeat is younger than half the flap gap. */
  predicate Calm(cfg: Config, e: Event) { IsReading(e) && SilenceOf(e) * 2 < FlapGap(cfg) }

  ghost predicate CalmBetween(cfg: Config, es: seq<Event>, a: nat, b: nat)
    requires b <= |es|
  {
    exists c :: a < c < b && Calm(cfg, es[c])
  }

  /** `marks` are the readings that began the remembered episodes: each silent,
      and each separated from the next by a calm reading. */
  ghost predicate EpisodesOk(cfg: Config, es: seq<Event>, t: Track, marks: seq<nat>)
  {
    && |marks| == |t.transitions|
    && (forall k :: 0 <= k < |marks| ==>
          marks[k] < |es| && Silent(cfg, es[marks[k]]) && es[marks[k]].now == t.transitions[k])
    && (forall k :: 0 < k < |marks| ==> marks[k - 1] < marks[k] && CalmBetween(cfg, es, marks[k - 1], marks[k]))
    && (!t.hiccup && marks != [] ==> CalmBetween(cfg, es, marks[|marks| - 1], |es|))
  }

  lemma {:induction false} DropStaleSuffix(ts: seq<Instant>, now: Instant, window: nat)
    ensures var r := DropStale(ts, now, window);
            && |r| <= |ts| && r == ts[|ts| - |r|..]
            && (r != [] ==> Since(now, r[0]) <= window)
  {
    if ts != [] && Since(now, ts[0]) > window {
      DropStaleSuffix(ts[1..], now, window);
    }
  }

  lemma EpisodesExtend(cfg: Config, es: seq<Event>, t: Track, marks: seq<nat>, e: Event)
    requires EpisodesOk(cfg, es, t, marks)
    ensures forall k :: 0 <= k < |marks| ==> (es + [e])[marks[k]] == es[marks[k]]
    ensures forall k :: 0 < k < |marks| ==> CalmBetween(cfg, es + [e], marks[k - 1], marks[k])
    ensures !t.hiccup && marks != [] ==> CalmBetween(cfg, es + [e], marks[|marks| - 1], |es|)
  {
    forall k | 0 < k < |marks| ensures CalmBetween(cfg, es + [e], marks[k - 1], marks[k]) {
      var c :| marks[k - 1] < c < marks[k] && Calm(cfg, es[c]);
      assert (es + [e])[c] == es[c];
    }
    if !t.hiccup && marks != [] {
      var c :| marks[|marks| - 1] < c < |es| && Calm(cfg, es[c]);
      assert (es + [e])[c] == es[c];
    }
  }

  lemma AppendMark(cfg: Config, es: seq<Event>, t: Track, marks: seq<nat>, e: Event)
    requires EpisodesOk(cfg, es, t, marks) && Silent(cfg, e) && !t.hiccup
    ensures EpisodesOk(cfg, es + [e], t.(hiccup := true, transitions := t.transitions + [e.now]), marks + [|es|])
  {
    EpisodesExtend(cfg, es, t, marks, e);
    var all := marks + [|es|];
    forall k | 0 < k < |all| ensures all[k - 1] < all[k] && CalmBetween(cfg, es + [e], all[k - 1], all[k]) {
      if k < |marks| {
        assert all[k] == marks[k] && all[k - 1] == marks[k - 1];
      }
    }
  }

  lemma DropMarks(cfg: Config, es: seq<Event>, t: Track, marks: seq<nat>, drop: nat)
    requires EpisodesOk(cfg, es, t, marks) && t.hiccup && drop <= |marks|
    ensures EpisodesOk(cfg, es, t.(transitions := t.transitions[drop..]), marks[drop..])
  {
    var kept := marks[drop..];
    forall k | 0 < k < |kept| ensures kept[k - 1] < kept[k] && CalmBetween(cfg, es, kept[k - 1], kept[k]) {
      assert kept[k] == marks[k + drop] && kept[k - 1] == marks[k + drop - 1];
    }
  }

  lemma RecordDrops(cfg: Config, t: Track, now: Instant) returns (drop: nat)
    ensures drop <= |t.transitions| + 1
    ensures RecordEpisode(cfg, t, now).transitions == (t.transitions + [now])[drop..]
    ensures RecordEpisode(cfg, t, now).hiccup
  {
    var ts := t.transitions + [now];
    DropStaleSuffix(ts, now, cfg.flapWindow * SEC);
    drop := |ts| - |DropStale(ts, now, cfg.flapWindow * SEC)|;
  }

  /** Starting an episode: append its mark and forget the stale ones. */
  lemma StartEpisode(cfg: Config, es: seq<Event>, t: Track, marks: seq<nat>, e: Event) returns (marks': seq<nat>)
    requires EpisodesOk(cfg, es, t, marks) && Silent(cfg, e) && !t.hiccup
    ensures EpisodesOk(cfg, es + [e], RecordEpisode(cfg, t, e.now), marks')
  {
    var t1 := t.(hiccup := true, transitions := t.transitions + [e.now]);
    AppendMark(cfg, es, t, marks, e);
    var drop := RecordDrops(cfg, t, e.now);
    DropMarks(cfg, es + [e], t1, marks + [|es|], drop);
    marks' := (marks + [|es|])[drop..];
    SameEpisodes(cfg, es + [e], t1.(transitions := t1.transitions[drop..]), RecordEpisode(cfg, t, e.now), marks');
  }

  /** Nothing but the episode bookkeeping touches the episodes. */
  lemma ObserveEpisodes(cfg: Config, t: Track, e: Event)
    ensures var t' := StepEvent(cfg, t, e).0;
            if !IsReading(e) then t'.transitions == t.transitions && t'.hiccup == t.hiccup
            else
              var t1 := FlapStep(cfg, t, SilenceOf(e), e.now);
              t'.transitions == t1.transitions && t'.hiccup == t1.hiccup
  {
  }

  lemma SameEpisodes(cfg: Config, es: seq<Event>, t: Track, t': Track, marks: seq<nat>)
    requires EpisodesOk(cfg, es, t, marks) && t'.transitions == t.transitions && t'.hiccup == t.hiccup
    ensures EpisodesOk(cfg, es, t', marks)
  {
  }

  lemma QuietEvent(cfg: Config, es: seq<Event>, t: Track, marks: seq<nat>, e: Event)
    requires EpisodesOk(cfg, es, t, marks)
    ensures EpisodesOk(cfg, es + [e], t, marks)
    ensures Calm(cfg, e) ==> EpisodesOk(cfg, es + [e], t.(hiccup := false), marks)
  {
    EpisodesExtend(cfg, es, t, marks, e);
    assert (es + [e])[|es|] == e;
  }

  lemma {:induction false} EpisodesInvariant(cfg: Config, init: Track, es: seq<Event>) returns (marks: seq<nat>)
    requires Initial(init)
    ensures EpisodesOk(cfg, es, RunTrack(cfg, init, es), marks)
  {
    if es == [] {
      marks := [];
    } else {
      var before, e := es[..|es| - 1], es[|es| - 1];
      var t, t' := RunTrack(cfg, init, before), RunTrack(cfg, init, es);
      assert es == before + [e];
      var earlierMarks := EpisodesInvariant(cfg, init, before);
      ObserveEpisodes(cfg, t, e);
      if IsReading(e) && StartsEpisode(cfg, t, SilenceOf(e)) {
        marks := StartEpisode(cfg, before, t, earlierMarks, e);
        SameEpisodes(cfg, es, RecordEpisode(cfg, t, e.now), t', marks);
      } else {
        marks := earlierMarks;
        QuietEvent(cfg, before, t, marks, e);
        SameEpisodes(cfg, es, if IsReading(e) then FlapStep(cfg, t, SilenceOf(e), e.now) else t, t', marks);
      }
    }
  }

  lemma OtherRulesNeverFlap(cfg: Config, t: Track, silence: int, now: Instant)
    ensures var d := OfflineStep(cfg, t, silence, now).1;
            d.Some? ==> d.value.kind != NodeFlapping
    ensures var d := OnlineStep(cfg, t, now).1;
            d.Some? ==> d.value.kind != NodeFlapping
  {
  }

  lemma FlapObserved(cfg: Config, t: Track, e: Event)
    requires StepEvent(cfg, t, e).1.Some? && StepEvent(cfg, t, e).1.value.kind == NodeFlapping
    ensures IsReading(e) && FlapFires(cfg, t, SilenceOf(e), e.now)
  {
    OtherRulesNeverFlap(cfg, FlapStep(cfg, t, SilenceOf(e), e.now), SilenceOf(e), e.now);
  }

  lemma FlapFiring(cfg: Config, t: Track, e: Event)
    requires StepEvent(cfg, t, e).1.Some? && StepEvent(cfg, t, e).1.value.kind == NodeFlapping
    ensures var (t', d) := StepEvent(cfg, t, e);
            && |t'.transitions| == d.value.duration >= FlapThreshold(cfg)
            && Since(e.now, t'.transitions[0]) <= cfg.flapWindow * SEC
  {
    FlapObserved(cfg, t, e);
    DropStaleSuffix(t.transitions + [e.now], e.now, cfg.flapWindow * SEC);
  }

  /** The remembered episodes of a prefix, all within the window if the first is. */
  lemma EpisodesWithin(cfg: Config, es: seq<Event>, i: nat, t: Track, marks: seq<nat>, window: nat)
    requires Ordered(es) && i < |es| && EpisodesOk(cfg, es[..i + 1], t, marks)
    requires marks != [] ==> Since(es[i].now, t.transitions[0]) <= window
    ensures forall k :: 0 <= k < |marks| ==>
              marks[k] <= i && Silent(cfg, es[marks[k]]) && es[i].now - es[marks[k]].now <= window
    ensures forall k :: 0 < k < |marks| ==> marks[k - 1] < marks[k] && CalmBetween(cfg, es, marks[k - 1], marks[k])
  {
    var upto := es[..i + 1];
    forall k | 0 <= k < |marks|
      ensures marks[k] <= i && Silent(cfg, es[marks[k]]) && es[i].now - es[marks[k]].now <= window
    {
      MarksAscend(cfg, upto, t, marks, k);
      assert upto[marks[0]] == es[marks[0]] && upto[marks[k]] == es[marks[k]];
      assert es[marks[0]].now <= es[marks[k]].now;
    }
    forall k | 0 < k < |marks| ensures CalmBetween(cfg, es, marks[k - 1], marks[k]) {
      var c :| marks[k - 1] < c < marks[k] && Calm(cfg, upto[c]);
      assert es[c] == upto[c];
    }
  }

  /** A flapping alert means at least `max(2, threshold)` silence episodes
      began within the window, each separated from the next by a calm reading;
      its duration field is their number. */
  lemma FlappingMeaning(cfg: Config, init: Track, es: seq<Event>, i: nat) returns (marks: seq<nat>)
    requires Initial(init) && Ordered(es) && i < |es|
    requires DecisionAt(cfg, init, es, i).Some? && DecisionAt(cfg, init, es, i).value.kind == NodeFlapping
    ensures |marks| >= FlapThreshold(cfg) && |marks| == DecisionAt(cfg, init, es, i).value.duration
    ensures forall k :: 0 <= k < |marks| ==>
              marks[k] <= i && Silent(cfg, es[marks[k]]) && es[i].now - es[marks[k]].now <= cfg.flapWindow * SEC
    ensures forall k :: 0 < k < |marks| ==> marks[k - 1] < marks[k] && CalmBetween(cfg, es, marks[k - 1], marks[k])
  {
    var upto := es[..i + 1];
    assert upto[..i] == es[..i];
    marks := EpisodesInvariant(cfg, init, upto);
    FlapFiring(cfg, RunTrack(cfg, init, es[..i]), es[i]);
    EpisodesWithin(cfg, es, i, RunTrack(cfg, init, upto), marks, cfg.flapWindow * SEC);
  }

  lemma {:induction false} MarksAscend(cfg: Config, es: seq<Event>, t: Track, marks: seq<nat>, k: nat)
    requires EpisodesOk(cfg, es, t, marks) && k < |marks|
    ensures marks[0] <= marks[k]
  {
    if k > 0 {
      MarksAscend(cfg, es, t, marks, k - 1);
    }
  }

  // ---- Recovery ----

  /** The heartbeat is missing for at least the offline threshold. */
  predicate Offline(cfg: Config, e: Event) { IsReading(e) && SilenceOf(e) >= cfg.offlineThreshold }

  predicate FlapFiredAt(cfg: Config, init: Track, es: seq<Event>, k: nat)
    requires k < |es|
  {
    var d := DecisionAt(cfg, init, es, k);
    d.Some? && d.value.kind == NodeFlapping
  }

  /** `ok` is the time of a fresh reading since which the only offline readings
      are those that fired a flapping alert. */
  ghost predicate StableSince(cfg: Config, init: Track, es: seq<Event>, ok: Instant, a: nat)
  {
    && a < |es| && es[a].now == ok && IsReading(es[a]) && !Offline(cfg, es[a])
    && forall k :: a < k < |es| && Offline(cfg, es[k]) ==> FlapFiredAt(cfg, init, es, k)
  }

  lemma OfflineOkSince(cfg: Config, t: Track, silence: int, now: Instant)
    ensures var (t', d) := OfflineStep(cfg, t, silence, now);
            t'.okSince.None? && (d.Some? ==> d.value.kind != NodeRecovered)
  {
  }

  lemma OnlineOkSince(cfg: Config, t: Track, now: Instant)
    ensures var (t', d) := OnlineStep(cfg, t, now);
            var ok := if t.okSince.Some? then t.okSince.value else now;
            && (t'.okSince.Some? ==> t'.okSince == t.okSince || t'.okSince.value == now)
            && (d.Some? && d.value.kind == NodeRecovered ==> Secs(Since(now, ok)) >= cfg.recoveryGrace)
  {
  }

  /** How a reading moves the start of the grace period. */
  lemma ObserveOkSince(cfg: Config, t: Track, e: Event)
    ensures var (t', d) := StepEvent(cfg, t, e);
            t'.okSince.Some? ==>
              || (t'.okSince == t.okSince && (Offline(cfg, e) ==> d.Some? && d.value.kind == NodeFlapping))
              || (t'.okSince.value == e.now && IsReading(e) && !Offline(cfg, e))
    ensures var (t', d) := StepEvent(cfg, t, e);
            d.Some? && d.value.kind == NodeRecovered ==>
              var ok := if t.okSince.Some? then t.okSince.value else e.now;
              IsReading(e) && !Offline(cfg, e) && Secs(Since(e.now, ok)) >= cfg.recoveryGrace
  {
    if IsReading(e) {
      var t1 := FlapStep(cfg, t, SilenceOf(e), e.now);
      assert t1.okSince == t.okSince;
      OfflineOkSince(cfg, t1, SilenceOf(e), e.now);
      OnlineOkSince(cfg, t1, e.now);
    }
  }

  lemma StableExtends(cfg: Config, init: Track, es: seq<Event>, ok: Instant, a: nat)
    requires es != [] && StableSince(cfg, init, es[..|es| - 1], ok, a)
    requires Offline(cfg, es[|es| - 1]) ==> FlapFiredAt(cfg, init, es, |es| - 1)
    ensures StableSince(cfg, init, es, ok, a)
  {
    var n := |es| - 1;
    forall k | a < k < |es| && Offline(cfg, es[k]) ensures FlapFiredAt(cfg, init, es, k) {
      if k < n {
        assert es[..n][..k] == es[..k] && es[..n][k] == es[k];
        assert FlapFiredAt(cfg, init, es[..n], k);
      }
    }
  }

  /** The reading that began the running grace period. */
  function OkStart(cfg: Config, init: Track, es: seq<Event>): nat
    requires RunTrack(cfg, init, es).okSince.Some?
  {
    var n := |es| - 1;
    if es == [] then 0
    else if RunTrack(cfg, init, es[..n]).okSince.Some? then OkStart(cfg, init, es[..n])
    else n
  }

  lemma {:induction false} StableInvariant(cfg: Config, init: Track, es: seq<Event>)
    requires Initial(init) && RunTrack(cfg, init, es).okSince.Some?
    ensures StableSince(cfg, init, es, RunTrack(cfg, init, es).okSince.value, OkStart(cfg, init, es))
  {
    var n := |es| - 1;
    var t, t' := RunTrack(cfg, init, es[..n]), RunTrack(cfg, init, es);
    ObserveOkSince(cfg, t, es[n]);
    if t.okSince.Some? {
      StableInvariant(cfg, init, es[..n]);
      StableExtends(cfg, init, es, t'.okSince.value, OkStart(cfg, init, es[..n]));
    }
  }

  /** The reading that began the grace period a reading at `i` looks back on. */
  function GraceStart(cfg: Config, init: Track, es: seq<Event>, i: nat): nat
    requires i < |es|
  {
    if RunTrack(cfg, init, es[..i]).okSince.Some? then OkStart(cfg, init, es[..i]) else i
  }

  /** A recovery alert comes at least the grace period after the fresh reading
      that began it.  No reading since then was offline if and only if none
      that was offline fired a flapping alert. */
  lemma RecoveredMeaning(cfg: Config, init: Track, es: seq<Event>, i: nat)
    requires Initial(init) && Ordered(es) && i < |es|
    requires DecisionAt(cfg, init, es, i).Some? && DecisionAt(cfg, init, es, i).value.kind == NodeRecovered
    ensures var a := GraceStart(cfg, init, es, i);
            && a <= i && IsReading(es[a]) && !Offline(cfg, es[a])
            && es[i].now - es[a].now >= cfg.recoveryGrace * SEC
            && ((forall k :: a < k <= i ==> !Offline(cfg, es[k])) <==>
                (forall k :: a < k <= i && Offline(cfg, es[k]) ==> !FlapFiredAt(cfg, init, es, k)))
  {
    var t, a := RunTrack(cfg, init, es[..i]), GraceStart(cfg, init, es, i);
    ObserveOkSince(cfg, t, es[i]);
    if t.okSince.Some? {
      StableInvariant(cfg, init, es[..i]);
      assert es[..i][a] == es[a] && es[a].now <= es[i].now;
      forall k | a < k <= i && Offline(cfg, es[k]) ensures FlapFiredAt(cfg, init, es, k) {
        assert k < i && es[..i][k] == es[k] && es[..i][..k] == es[..k];
        assert FlapFiredAt(cfg, init, es[..i], k);
      }
    }
    WholeSeconds(es[i].now - es[a].now, cfg.recoveryGrace);
  }

  /** An offline reading ends the grace period unless it fires a flapping
      alert: that rule returns before the offline rule looks. */
  lemma OfflineEndsGraceIff(cfg: Config, t: Track, e: Event)
    requires Offline(cfg, e)
    ensures StepEvent(cfg, t, e).0.okSince.None? <==> t.okSince.None? || !FlapFires(cfg, t, SilenceOf(e), e.now)
  {
    OfflineOkSince(cfg, FlapStep(cfg, t, SilenceOf(e), e.now), SilenceOf(e), e.now);
  }

  const FLAPPY := Config(60, 120, 0, 0, 60, 3600, 2, 3600, 90.0, 60, 80.0)

  /** Fresh at 10 s, silent for 70 s at 80 s, fresh at 130 s: the node is
      reported recovered 50 s after an offline reading, with a grace of 120 s. */
  lemma FlappingHidesOffline()
    ensures var init := Seed(FLAPPY, NewTrack(0), true, 0, true);
            var es := [Reading(Some(40_000), 100_000, 0), Reading(Some(110_000), 110_000, 10 * SEC),
                       Reading(Some(110_000), 180_000, 80 * SEC), Reading(Some(230_000), 230_000, 130 * SEC)];
            && Initial(init) && Ordered(es) && Offline(FLAPPY, es[2])
            && DecisionAt(FLAPPY, init, es, 3) == Some(Fire(NodeRecovered, 120))
  {
    var init := Seed(FLAPPY, NewTrack(0), true, 0, true);
    var a, b, c, d := Reading(Some(40_000), 100_000, 0), Reading(Some(110_000), 110_000, 10 * SEC),
                      Reading(Some(110_000), 180_000, 80 * SEC), Reading(Some(230_000), 230_000, 130 * SEC);
    var es := [a, b, c, d];
    var t1 := StepEvent(FLAPPY, init, a).0;
    assert t1.transitions == [0] && t1.alerted && t1.hiccup && t1.okSince == None;
    var t2 := StepEvent(FLAPPY, t1, b).0;
    assert t2 == t1.(hiccup := false, okSince := Some(10 * SEC), offlineSince := None);
    assert [0] + [80 * SEC] == [0, 80 * SEC];
    var t3 := StepEvent(FLAPPY, t2, c).0;
    assert t3.alerted && t3.okSince == Some(10 * SEC);
    assert es[..3] == [a, b, c] && [a, b, c][..2] == [a, b] && [a, b][..1] == [a] && [a][..0] == [];
    assert RunTrack(FLAPPY, init, []) == init && RunTrack(FLAPPY, init, [a]) == t1;
    assert RunTrack(FLAPPY, init, [a, b]) == t2 && RunTrack(FLAPPY, init, [a, b, c]) == t3;
  }

  // ---- What a reading must show ----

  /** Only a reading fires an alert: an offline or escalating one is past the
      offline threshold, a flapping one past the flap gap, a recovering one
      fresh; and a new node is given its grace. */
  lemma FireReasons(cfg: Config, t: Track, e: Event)
    requires StepEvent(cfg, t, e).1.Some?
    ensures var f := StepEvent(cfg, t, e).1.value;
            && IsReading(e)
            && (f.kind != NodeRecovered ==> !IsNew(cfg, t, e.now))
            && (match f.kind
                case NodeOffline => Offline(cfg, e) && f.duration >= SilenceOf(e)
                case NodeOfflineLong => Offline(cfg, e) && f.duration >= Max(cfg.offlineLong, 600)
                case NodeFlapping => Silent(cfg, e)
                case NodeRecovered => !Offline(cfg, e) && f.duration >= cfg.recoveryGrace
                case NodeCpuHigh => false)
  {
  }

  // ---- The grace of a new node ----

  function LastReseed(es: seq<Event>): (j: Option<nat>)
    ensures j.Some? ==> j.value < |es| && es[j.value].Reseed?
  {
    if es == [] then None
    else if es[|es| - 1].Reseed? then Some(|es| - 1)
    else LastReseed(es[..|es| - 1])
  }

  /** A node first observed at `start` is still new: a seed takes the grace
      away, except one too early after boot to subtract it, which renews it. */
  predicate GraceInForce(cfg: Config, start: Instant, es: seq<Event>, now: Instant)
  {
    match LastReseed(es)
    case None => now - start < cfg.newNodeGrace * SEC
    case Some(j) => !es[j].reachable && now - es[j].now < cfg.newNodeGrace * SEC
  }

  function Birth(cfg: Config, start: Instant, es: seq<Event>): Instant
  {
    match LastReseed(es)
    case None => start
    case Some(j) => if es[j].reachable then es[j].now - cfg.newNodeGrace * SEC else es[j].now
  }

  lemma FirstSeenKept(cfg: Config, t: Track, e: Event)
    requires e.Reading?
    ensures StepEvent(cfg, t, e).0.firstSeen == t.firstSeen
  {
  }

  /** How the engine comes to know a node: by its first observation, or by a
      seed, which at startup may say that it has an open alert. */
  datatype Opening = Met | Seeded(already: bool, reachable: bool)

  function Opened(cfg: Config, start: Instant, o: Opening): Track
  {
    match o
    case Met => NewTrack(start)
    case Seeded(already, reachable) => Seed(cfg, NewTrack(start), already, start, reachable)
  }

  /** The events of a node with the seed that made it known. */
  function WithOpening(start: Instant, o: Opening, es: seq<Event>): seq<Event>
  {
    if o.Met? then es else [Reseed(start, o.reachable)] + es
  }

  function Lived(cfg: Config, start: Instant, o: Opening, es: seq<Event>): Track
  {
    RunTrack(cfg, Opened(cfg, start, o), es)
  }

  lemma WithOpeningSnoc(start: Instant, o: Opening, es: seq<Event>)
    requires es != []
    ensures var all, n := WithOpening(start, o, es), |WithOpening(start, o, es)| - 1;
            n >= 0 && all[..n] == WithOpening(start, o, es[..|es| - 1]) && all[n] == es[|es| - 1]
  {
  }

  lemma {:induction false} FirstSeenIsBirth(cfg: Config, start: Instant, o: Opening, es: seq<Event>)
    ensures Lived(cfg, start, o, es).firstSeen == Birth(cfg, start, WithOpening(start, o, es))
  {
    if es == [] {
      assert [Reseed(start, true)][..0] == [];
    } else {
      var before, e := es[..|es| - 1], es[|es| - 1];
      FirstSeenIsBirth(cfg, start, o, before);
      WithOpeningSnoc(start, o, es);
      if e.Reading? {
        FirstSeenKept(cfg, Lived(cfg, start, o, before), e);
        BirthKept(cfg, start, WithOpening(start, o, es));
      }
    }
  }

  lemma BirthKept(cfg: Config, start: Instant, es: seq<Event>)
    requires es != [] && es[|es| - 1].Reading?
    ensures Birth(cfg, start, es) == Birth(cfg, start, es[..|es| - 1])
  {
    var before := es[..|es| - 1];
    assert LastReseed(es) == LastReseed(before);
    assert LastReseed(before).Some? ==> before[LastReseed(before).value] == es[LastReseed(before).value];
  }

  ghost predicate Begins(start: Instant, es: seq<Event>)
  {
    Ordered(es) && (es != [] ==> start <= es[0].now)
  }

  lemma OpeningOrdered(start: Instant, o: Opening, es: seq<Event>, i: nat)
    requires Begins(start, es) && i < |es|
    ensures start <= es[i].now
    ensures var all := WithOpening(start, o, es[..i]);
            forall k :: 0 <= k < |all| ==> all[k].now <= es[i].now
  {
    assert i > 0 ==> es[0].now <= es[i].now;
    var all := WithOpening(start, o, es[..i]);
    forall k | 0 <= k < |all| ensures all[k].now <= es[i].now {
      var shift := if o.Met? then 0 else 1;
      if k >= shift {
        assert all[k] == es[k - shift];
      }
    }
  }

  /** Over every run of a node met or seeded, re-seeding included, the rules
      treat it as new exactly while its grace is in force. */
  lemma NewIffGrace(cfg: Config, start: Instant, o: Opening, es: seq<Event>, i: nat)
    requires Begins(start, es) && i < |es|
    ensures IsNew(cfg, Lived(cfg, start, o, es[..i]), es[i].now) <==>
            GraceInForce(cfg, start, WithOpening(start, o, es[..i]), es[i].now)
  {
    FirstSeenIsBirth(cfg, start, o, es[..i]);
    OpeningOrdered(start, o, es, i);
  }

  /** The clock starts at `origin`: an earlier instant cannot be represented. */
  ghost predicate FromOrigin(cfg: Config, origin: Instant, start: Instant, es: seq<Event>)
  {
    && origin <= start
    && forall k :: 0 <= k < |es| && es[k].Reseed? ==>
         origin <= es[k].now && (es[k].reachable <==> origin <= es[k].now - cfg.newNodeGrace * SEC)
  }

  lemma BirthAfterOrigin(cfg: Config, origin: Instant, start: Instant, es: seq<Event>)
    requires FromOrigin(cfg, origin, start, es)
    ensures origin <= Birth(cfg, start, es)
  {
  }

  /** The clock and the node were past the grace at the last event. */
  ghost predicate PastGrace(cfg: Config, origin: Instant, start: Instant, o: Opening, es: seq<Event>)
  {
    && es != []
    && es[|es| - 1].now - origin >= cfg.newNodeGrace * SEC
    && es[|es| - 1].now - Birth(cfg, start, WithOpening(start, o, es)) >= cfg.newNodeGrace * SEC
  }

  ghost predicate NoneRecovered(fires: seq<Sent>)
  {
    forall i :: 0 <= i < |fires| ==> fires[i].kind != NodeRecovered
  }

  /** The open alert is the one the node was seeded with. */
  ghost predicate SeedStands(cfg: Config, start: Instant, o: Opening, es: seq<Event>)
  {
    o.Seeded? && o.already && NoneRecovered(Fires(cfg, Opened(cfg, start, o), es))
  }

  lemma PastGraceKept(cfg: Config, origin: Instant, start: Instant, o: Opening, es: seq<Event>)
    requires es != [] && PastGrace(cfg, origin, start, o, es[..|es| - 1])
    requires Begins(start, es) && FromOrigin(cfg, origin, start, WithOpening(start, o, es))
    ensures PastGrace(cfg, origin, start, o, es)
  {
    var before, e := es[..|es| - 1], es[|es| - 1];
    assert before[|before| - 1].now <= e.now;
    WithOpeningSnoc(start, o, es);
    if e.Reading? {
      BirthKept(cfg, start, WithOpening(start, o, es));
    } else {
      var all := WithOpening(start, o, es);
      assert all[|all| - 1].reachable;
    }
  }

  lemma FirstAlertPastGrace(cfg: Config, origin: Instant, start: Instant, o: Opening, es: seq<Event>)
    requires es != [] && Begins(start, es) && FromOrigin(cfg, origin, start, WithOpening(start, o, es))
    requires Lived(cfg, start, o, es).alerted && !Lived(cfg, start, o, es[..|es| - 1]).alerted
    ensures PastGrace(cfg, origin, start, o, es)
  {
    var before, e := es[..|es| - 1], es[|es| - 1];
    var t := Lived(cfg, start, o, before);
    ObservePhases(cfg, t, e);
    FireReasons(cfg, t, e);
    FirstSeenIsBirth(cfg, start, o, before);
    WithOpeningSnoc(start, o, es);
    BirthKept(cfg, start, WithOpening(start, o, es));
    BirthAfterOrigin(cfg, origin, start, WithOpening(start, o, es));
    OpeningOrdered(start, o, es, |es| - 1);
  }

  /** An open alert means that the clock and the node are past the grace, or
      that the node was seeded with it and has not recovered since. */
  lemma {:induction false} AlertedIsNotNew(cfg: Config, origin: Instant, start: Instant, o: Opening, es: seq<Event>)
    requires Begins(start, es) && FromOrigin(cfg, origin, start, WithOpening(start, o, es))
    ensures Lived(cfg, start, o, es).alerted ==> PastGrace(cfg, origin, start, o, es) || SeedStands(cfg, start, o, es)
  {
    if es != [] && Lived(cfg, start, o, es).alerted {
      var before, e := es[..|es| - 1], es[|es| - 1];
      WithOpeningSnoc(start, o, es);
      if Lived(cfg, start, o, before).alerted {
        OriginBefore(cfg, origin, start, o, es);
        AlertedIsNotNew(cfg, origin, start, o, before);
        if PastGrace(cfg, origin, start, o, before) {
          PastGraceKept(cfg, origin, start, o, es);
        } else {
          ObservePhases(cfg, Lived(cfg, start, o, before), e);
        }
      } else {
        FirstAlertPastGrace(cfg, origin, start, o, es);
      }
    }
  }

  lemma OriginBefore(cfg: Config, origin: Instant, start: Instant, o: Opening, es: seq<Event>)
    requires es != [] && FromOrigin(cfg, origin, start, WithOpening(start, o, es))
    ensures FromOrigin(cfg, origin, start, WithOpening(start, o, es[..|es| - 1]))
  {
    WithOpeningSnoc(start, o, es);
    var all, fewer := WithOpening(start, o, es), WithOpening(start, o, es[..|es| - 1]);
    forall k | 0 <= k < |fewer| ensures fewer[k] == all[k] {}
  }

  lemma {:induction false} OriginPrefix(cfg: Config, origin: Instant, start: Instant, o: Opening, es: seq<Event>, i: nat)
    requires i <= |es| && FromOrigin(cfg, origin, start, WithOpening(start, o, es))
    ensures FromOrigin(cfg, origin, start, WithOpening(start, o, es[..i]))
    decreases |es|
  {
    if i < |es| {
      OriginBefore(cfg, origin, start, o, es);
      OriginPrefix(cfg, origin, start, o, es[..|es| - 1], i);
      assert es[..|es| - 1][..i] == es[..i];
    } else {
      assert es[..i] == es;
    }
  }

  /** No alert is raised while the grace is in force.  By a clock that starts
      somewhere, the only thing to fire then is the recovery from the alert a
      node was seeded with at startup. */
  lemma QuietWhileNew(cfg: Config, origin: Instant, start: Instant, o: Opening, es: seq<Event>, i: nat)
    requires Begins(start, es) && i < |es| && DecisionAt(cfg, Opened(cfg, start, o), es, i).Some?
    requires GraceInForce(cfg, start, WithOpening(start, o, es[..i]), es[i].now)
    ensures DecisionAt(cfg, Opened(cfg, start, o), es, i).value.kind == NodeRecovered
    ensures FromOrigin(cfg, origin, start, WithOpening(start, o, es)) ==> SeedStands(cfg, start, o, es[..i])
  {
    var t := Lived(cfg, start, o, es[..i]);
    NewIffGrace(cfg, start, o, es, i);
    FireReasons(cfg, t, es[i]);
    if FromOrigin(cfg, origin, start, WithOpening(start, o, es)) {
      ObservePhases(cfg, t, es[i]);
      OriginPrefix(cfg, origin, start, o, es, i);
      AlertedIsNotNew(cfg, origin, start, o, es[..i]);
      FirstSeenIsBirth(cfg, start, o, es[..i]);
      assert i > 0 ==> es[..i][i - 1].now <= es[i].now;
    }
  }

  /** Seeded as alerted at boot, fresh at 10 s and at 130 s: the recovery is
      reported with 470 s of the node's grace still to go. */
  lemma RecoveryWithinGrace()
    ensures var cfg := Config(600, 120, 600, 0, 120, 3600, 5, 3600, 90.0, 60, 80.0);
            var es := [Reseed(10 * SEC, false), Reading(Some(10_000), 10_000, 10 * SEC),
                       Reseed(130 * SEC, false), Reading(Some(130_000), 130_000, 130 * SEC)];
            && Begins(0, es) && FromOrigin(cfg, 0, 0, WithOpening(0, Seeded(true, false), es))
            && GraceInForce(cfg, 0, WithOpening(0, Seeded(true, false), es[..3]), 130 * SEC)
            && DecisionAt(cfg, Opened(cfg, 0, Seeded(true, false)), es, 3) == Some(Fire(NodeRecovered, 120))
  {
    var cfg := Config(600, 120, 600, 0, 120, 3600, 5, 3600, 90.0, 60, 80.0);
    var a, b, c, d := Reseed(10 * SEC, false), Reading(Some(10_000), 10_000, 10 * SEC),
                      Reseed(130 * SEC, false), Reading(Some(130_000), 130_000, 130 * SEC);
    var es := [a, b, c, d];
    var init := Opened(cfg, 0, Seeded(true, false));
    assert [a, b, c, d][..3] == [a, b, c];
    assert [a, b, c][..2] == [a, b] && [a, b][..1] == [a] && [a][..0] == [];
    var t1 := StepEvent(cfg, init, a).0;
    var t2 := StepEvent(cfg, t1, b).0;
    assert t2.alerted && t2.okSince == Some(10 * SEC);
    var t3 := StepEvent(cfg, t2, c).0;
    assert RunTrack(cfg, init, []) == init && RunTrack(cfg, init, [a]) == t1;
    assert RunTrack(cfg, init, [a, b]) == t2 && RunTrack(cfg, init, [a, b, c]) == t3;
    var all := WithOpening(0, Seeded(true, false), es[..3]);
    assert all == [Reseed(0, false), a, b, c] && LastReseed(all) == Some(3);
  }

  ghost predicate NoReachableReseed(es: seq<Event>)
  {
    forall k :: 0 <= k < |es| && es[k].Reseed? ==> !es[k].reachable
  }

  /** By a clock that starts somewhere the grace is in force exactly when no
      seed has yet been able to subtract it and the node's start, or its last
      seed, is less than the grace ago. */
  lemma GraceIff(cfg: Config, origin: Instant, start: Instant, es: seq<Event>, now: Instant)
    requires Ordered(es) && FromOrigin(cfg, origin, start, es)
    ensures GraceInForce(cfg, start, es, now) <==>
            && NoReachableReseed(es)
            && now - (if LastReseed(es).Some? then es[LastReseed(es).value].now else start) < cfg.newNodeGrace * SEC
  {
    LastReseedIsLast(es);
    var j := LastReseed(es);
    if j.Some? && !es[j.value].reachable {
      forall k | 0 <= k < |es| && es[k].Reseed? ensures !es[k].reachable {
        assert k < j.value ==> es[k].now <= es[j.value].now;
      }
    }
  }

  lemma {:induction false} LastReseedIsLast(es: seq<Event>)
    ensures forall k :: 0 <= k < |es| && es[k].Reseed? ==> LastReseed(es).Some? && k <= LastReseed(es).value
  {
    if es != [] {
      LastReseedIsLast(es[..|es| - 1]);
      forall k | 0 <= k < |es| && es[k].Reseed? ensures LastReseed(es).Some? && k <= LastReseed(es).value {
        assert k < |es| - 1 ==> es[..|es| - 1][k] == es[k];
      }
    }
  }

  /** The service seeds a node with a known heartbeat before each reading, so
      the node it has just met is reported offline at once: with a grace of
      600 s the alert comes at time 0. */
  lemma ReseedEndsGrace()
    ensures var cfg := Config(600, 120, 600, 0, 120, 3600, 5, 3600, 90.0, 60, 80.0);
            var es := [Reseed(0, true), Reading(Some(0), 600_000, 0)];
            Begins(0, es) && DecisionAt(cfg, NewTrack(0), es, 1) == Some(Fire(NodeOffline, 600))
  {
    var cfg := Config(600, 120, 600, 0, 120, 3600, 5, 3600, 90.0, 60, 80.0);
    var es := [Reseed(0, true), Reading(Some(0), 600_000, 0)];
    assert es[..1] == [es[0]] && [es[0]][..0] == [];
    assert RunTrack(cfg, NewTrack(0), []) == NewTrack(0);
    assert RunTrack(cfg, NewTrack(0), es[..1]) == Seed(cfg, NewTrack(0), false, 0, true);
  }

  // ---- CPU ----

  datatype CpuReading = CpuReading(pct: Option<real>, now: Instant)

  function CpuRun(cfg: Config, rs: seq<CpuReading>): Option<CpuTrack>
  {
    if rs == [] then None
    else ObserveCpu(cfg, CpuRun(cfg, rs[..|rs| - 1]), rs[|rs| - 1].pct, rs[|rs| - 1].now).0
  }

  function CpuDecision(cfg: Config, rs: seq<CpuReading>, i: nat): Decision
    requires i < |rs|
  {
    ObserveCpu(cfg, CpuRun(cfg, rs[..i]), rs[i].pct, rs[i].now).1
  }

  predicate High(cfg: Config, r: CpuReading) { r.pct.Some? && r.pct.value >= cfg.cpuThreshold }

  predicate Low(cfg: Config, r: CpuReading) { r.pct.Some? && r.pct.value < CpuReset(cfg) }

  ghost predicate NoLowBetween(cfg: Config, rs: seq<CpuReading>, a: nat, b: nat)
    requires b <= |rs|
  {
    forall k :: a < k < b ==> !Low(cfg, rs[k])
  }

  /** The load has been tracked since reading `a`, which was high, with no low
      reading since. */
  ghost predicate HighSince(cfg: Config, rs: seq<CpuReading>, t: CpuTrack, a: nat)
  {
    a < |rs| && High(cfg, rs[a]) && rs[a].now == t.highSince && NoLowBetween(cfg, rs, a, |rs|)
  }

  lemma {:induction false} CpuInvariant(cfg: Config, rs: seq<CpuReading>) returns (a: nat)
    ensures CpuRun(cfg, rs).Some? ==> HighSince(cfg, rs, CpuRun(cfg, rs).value, a)
  {
    a := 0;
    if rs != [] {
      var n := |rs| - 1;
      var before, r := rs[..n], rs[n];
      var t, t' := CpuRun(cfg, before), CpuRun(cfg, rs);
      a := CpuInvariant(cfg, before);
      if t'.Some? {
        if t.None? {
          a := n;
        }
      }
    }
  }

  /** A CPU alert means the load was at the threshold at some reading at least
      `max(60, hold)` seconds earlier, with no reading below the reset level since. */
  lemma CpuHighMeaning(cfg: Config, rs: seq<CpuReading>, i: nat) returns (a: nat)
    requires i < |rs| && CpuDecision(cfg, rs, i).Some?
    ensures a < i && High(cfg, rs[a]) && High(cfg, rs[i])
    ensures rs[i].now - rs[a].now >= CpuHold(cfg)
    ensures NoLowBetween(cfg, rs, a, i)
  {
    a := CpuInvariant(cfg, rs[..i]);
  }

  /** Once sent, the alert stays remembered until a low reading. */
  lemma {:induction false} CpuStaysAlerted(cfg: Config, rs: seq<CpuReading>, i: nat, n: nat)
    requires i < n <= |rs| && CpuDecision(cfg, rs, i).Some? && NoLowBetween(cfg, rs, i, n)
    ensures CpuRun(cfg, rs[..n]).Some? && CpuRun(cfg, rs[..n]).value.alerted
  {
    assert rs[..n][..n - 1] == rs[..n - 1] && rs[..n][n - 1] == rs[n - 1];
    if i < n - 1 {
      CpuStaysAlerted(cfg, rs, i, n - 1);
    }
  }

  /** Two CPU alerts have a reading below the reset level between them. */
  lemma CpuHighOnce(cfg: Config, rs: seq<CpuReading>, i: nat, j: nat)
    requires i < j < |rs| && CpuDecision(cfg, rs, i).Some? && CpuDecision(cfg, rs, j).Some?
    ensures exists k :: i < k < j && Low(cfg, rs[k])
  {
    if NoLowBetween(cfg, rs, i, j) {
      CpuStaysAlerted(cfg, rs, i, j);
    }
  }
}
