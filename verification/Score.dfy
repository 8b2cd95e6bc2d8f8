/** Node scores and their exponentially weighted averages, over the reals. */
module Score {
  import opened Collections

  const TAU_5M: real := 300.0
  const TAU_1H: real := 3600.0
  const TAU_24H: real := 86400.0

  /** All that is used of the exponential: on negative arguments it lies
      strictly between 0 and 1, and it increases. */
  type Exp = real -> real

  ghost predicate IsExp(exp: Exp)
  {
    && (forall x :: x < 0.0 ==> 0.0 < exp(x) < 1.0)
    && (forall x, y :: x < y ==> exp(x) < exp(y))
  }

  // ---- The score of one observation ----

  datatype Config = Config(wLoad: real, wUsers: real, wBwCapacity: real, wBwPerUser: real,
                           wReliability: real, wUptime: real, softCap: real, targetBps: real,
                           heartbeatEvery: nat)

  datatype Inputs = Inputs(load1: real, load15: real, cores: nat, users: real, txBps: real,
                           linkCapacity: real, heartbeats: nat, uptimeDays: real)

  datatype Components = Components(load: real, users: real, bwCapacity: real, bwPerUser: real,
                                   reliability: real, uptime: real)

  function Clamp(v: real, lo: real, hi: real): (r: real)
    requires lo <= hi
    ensures lo <= r <= hi
  {
    if v < lo then lo else if v > hi then hi else v
  }

  function Clamp01(v: real): (r: real)
    ensures 0.0 <= r <= 1.0
  {
    Clamp(v, 0.0, 1.0)
  }

  function Positive(v: real): (r: real)
    ensures r > 0.0
  {
    if v > 0.0 then v else 1.0
  }

  function RMax(a: real, b: real): real { if a > b then a else b }

  function RMin(a: real, b: real): real { if a < b then a else b }

  function ComponentsOf(input: Inputs, cfg: Config): Components
  {
    var load := if input.cores == 0 then 1.0 - Clamp01(input.load15)
                else 1.0 - Clamp01(input.load1 / input.cores as real);
    var users := 1.0 - Clamp01(input.users / Positive(cfg.softCap));
    var capacity := 1.0 - Clamp01(input.txBps / Positive(input.linkCapacity));
    var perUser := input.txBps / RMax(input.users, 1.0);
    var every := if cfg.heartbeatEvery >= 1 then cfg.heartbeatEvery else 1;
    var expected := RMax(86_400.0 / every as real, 1.0);
    Components(load, users, capacity, Clamp01(perUser / Positive(cfg.targetBps)),
               Clamp01(input.heartbeats as real / expected), Clamp01(RMin(input.uptimeDays, 30.0) / 30.0))
  }

  function Weighted(c: Components, cfg: Config): real
  {
    100.0 * (cfg.wLoad * c.load + cfg.wUsers * c.users + cfg.wBwCapacity * c.bwCapacity
             + cfg.wBwPerUser * c.bwPerUser + cfg.wReliability * c.reliability + cfg.wUptime * c.uptime)
  }

  function Formula(input: Inputs, cfg: Config): (r: real)
    ensures 0.0 <= r <= 100.0
  {
    Clamp(Weighted(ComponentsOf(input, cfg), cfg), 0.0, 100.0)
  }

  ghost predicate IsWeighting(cfg: Config)
  {
    && cfg.wLoad >= 0.0 && cfg.wUsers >= 0.0 && cfg.wBwCapacity >= 0.0
    && cfg.wBwPerUser >= 0.0 && cfg.wReliability >= 0.0 && cfg.wUptime >= 0.0
  }

  lemma ScaleDown(w: real, a: real, b: real)
    requires w >= 0.0 && a <= b
    ensures w * a <= w * b
  {
  }

  lemma DivideMonotone(a: real, b: real, d: real)
    requires a <= b && d > 0.0
    ensures a / d <= b / d
  {
    assert (b - a) / d >= 0.0;
  }

  lemma NonNegativeFactor(a: real, b: real)
    requires a > 0.0 && a * b >= 0.0
    ensures b >= 0.0
  {
  }

  lemma DivideByMore(a: real, d: real, e: real)
    requires a >= 0.0 && 0.0 < d <= e
    ensures a / e <= a / d
  {
    var x, y := a / d, a / e;
    assert x * d == a && y * e == a && y >= 0.0;
    ScaleDown(y, d, e);
    assert d * (x - y) == a - y * d;
    NonNegativeFactor(d, x - y);
  }

  lemma UsersLowerComponents(input: Inputs, cfg: Config, users: real)
    requires input.users <= users && input.txBps >= 0.0
    ensures var a, b := ComponentsOf(input, cfg), ComponentsOf(input.(users := users), cfg);
            b.users <= a.users && b.bwPerUser <= a.bwPerUser && b == a.(users := b.users, bwPerUser := b.bwPerUser)
  {
    DivideMonotone(input.users, users, Positive(cfg.softCap));
    DivideByMore(input.txBps, RMax(input.users, 1.0), RMax(users, 1.0));
    DivideMonotone(input.txBps / RMax(users, 1.0), input.txBps / RMax(input.users, 1.0), Positive(cfg.targetBps));
  }

  /** Every component of `a` is at most that of `b`. */
  ghost predicate NoBetter(a: Components, b: Components)
  {
    && a.load <= b.load && a.users <= b.users && a.bwCapacity <= b.bwCapacity
    && a.bwPerUser <= b.bwPerUser && a.reliability <= b.reliability && a.uptime <= b.uptime
  }

  lemma SixTerms(a: real, b: real, c: real, d: real, e: real, f: real,
                 a': real, b': real, c': real, d': real, e': real, f': real)
    requires a <= a' && b <= b' && c <= c' && d <= d' && e <= e' && f <= f'
    ensures 100.0 * (a + b + c + d + e + f) <= 100.0 * (a' + b' + c' + d' + e' + f')
  {
  }

  lemma WeightedMonotone(a: Components, b: Components, cfg: Config)
    requires IsWeighting(cfg) && NoBetter(a, b)
    ensures Weighted(a, cfg) <= Weighted(b, cfg)
  {
    ScaleDown(cfg.wLoad, a.load, b.load);
    ScaleDown(cfg.wUsers, a.users, b.users);
    ScaleDown(cfg.wBwCapacity, a.bwCapacity, b.bwCapacity);
    ScaleDown(cfg.wBwPerUser, a.bwPerUser, b.bwPerUser);
    ScaleDown(cfg.wReliability, a.reliability, b.reliability);
    ScaleDown(cfg.wUptime, a.uptime, b.uptime);
    SixTerms(cfg.wLoad * a.load, cfg.wUsers * a.users, cfg.wBwCapacity * a.bwCapacity,
             cfg.wBwPerUser * a.bwPerUser, cfg.wReliability * a.reliability, cfg.wUptime * a.uptime,
             cfg.wLoad * b.load, cfg.wUsers * b.users, cfg.wBwCapacity * b.bwCapacity,
             cfg.wBwPerUser * b.bwPerUser, cfg.wReliability * b.reliability, cfg.wUptime * b.uptime);
  }

  /** Each weight is what its component counts for, of a hundred. */
  lemma WeightsMeaning(c: Components, cfg: Config, x: real)
    ensures Weighted(c.(load := c.load + x), cfg) == Weighted(c, cfg) + 100.0 * (cfg.wLoad * x)
    ensures Weighted(c.(users := c.users + x), cfg) == Weighted(c, cfg) + 100.0 * (cfg.wUsers * x)
    ensures Weighted(c.(bwCapacity := c.bwCapacity + x), cfg) == Weighted(c, cfg) + 100.0 * (cfg.wBwCapacity * x)
    ensures Weighted(c.(bwPerUser := c.bwPerUser + x), cfg) == Weighted(c, cfg) + 100.0 * (cfg.wBwPerUser * x)
    ensures Weighted(c.(reliability := c.reliability + x), cfg) == Weighted(c, cfg) + 100.0 * (cfg.wReliability * x)
    ensures Weighted(c.(uptime := c.uptime + x), cfg) == Weighted(c, cfg) + 100.0 * (cfg.wUptime * x)
  {
    Distribute(cfg.wLoad, c.load, x);
    Distribute(cfg.wUsers, c.users, x);
    Distribute(cfg.wBwCapacity, c.bwCapacity, x);
    Distribute(cfg.wBwPerUser, c.bwPerUser, x);
    Distribute(cfg.wReliability, c.reliability, x);
    Distribute(cfg.wUptime, c.uptime, x);
  }

  lemma Distribute(w: real, a: real, x: real)
    ensures w * (a + x) == w * a + w * x
  {
  }

  /** With nonnegative weights and traffic, more users never raise the score. */
  lemma MoreUsersNeverHelp(input: Inputs, cfg: Config, users: real)
    requires IsWeighting(cfg) && input.users <= users && input.txBps >= 0.0
    ensures Formula(input.(users := users), cfg) <= Formula(input, cfg)
  {
    UsersLowerComponents(input, cfg, users);
    WeightedMonotone(ComponentsOf(input.(users := users), cfg), ComponentsOf(input, cfg), cfg);
  }

  /** `b` is the same machine with no more load and traffic to spare, and no
      fewer heartbeats and days of uptime. */
  ghost predicate Healthier(a: Inputs, b: Inputs)
  {
    && b.cores == a.cores && b.linkCapacity == a.linkCapacity && b.users == a.users && b.txBps == a.txBps
    && b.load1 <= a.load1 && b.load15 <= a.load15 && a.heartbeats <= b.heartbeats && a.uptimeDays <= b.uptimeDays
  }

  /** With nonnegative weights less load, more heartbeats and more uptime never
      lower the score. */
  lemma HealthNeverHurts(a: Inputs, b: Inputs, cfg: Config)
    requires IsWeighting(cfg) && Healthier(a, b)
    ensures NoBetter(ComponentsOf(a, cfg), ComponentsOf(b, cfg))
    ensures Formula(a, cfg) <= Formula(b, cfg)
  {
    var every := if cfg.heartbeatEvery >= 1 then cfg.heartbeatEvery else 1;
    if a.cores > 0 {
      DivideMonotone(b.load1, a.load1, a.cores as real);
    }
    DivideMonotone(a.heartbeats as real, b.heartbeats as real, RMax(86_400.0 / every as real, 1.0));
    WeightedMonotone(ComponentsOf(a, cfg), ComponentsOf(b, cfg), cfg);
  }

  /** More traffic takes from the spare capacity and adds to the rate per user,
      and touches nothing else. */
  lemma TrafficTrades(input: Inputs, cfg: Config, txBps: real)
    requires input.txBps <= txBps
    ensures var a, b := ComponentsOf(input, cfg), ComponentsOf(input.(txBps := txBps), cfg);
            && b.bwCapacity <= a.bwCapacity && a.bwPerUser <= b.bwPerUser
            && b == a.(bwCapacity := b.bwCapacity, bwPerUser := b.bwPerUser)
  {
    DivideMonotone(input.txBps, txBps, Positive(input.linkCapacity));
    DivideMonotone(input.txBps, txBps, RMax(input.users, 1.0));
    DivideMonotone(input.txBps / RMax(input.users, 1.0), txBps / RMax(input.users, 1.0), Positive(cfg.targetBps));
  }

  /** `share` is the part `x` is of `whole`, cut to [0, 1]. */
  ghost predicate ShareOf(share: real, x: real, whole: real)
  {
    if x <= 0.0 then share == 0.0 else if x >= whole then share == 1.0 else share * whole == x
  }

  lemma ClampedShare(x: real, whole: real)
    requires whole > 0.0
    ensures ShareOf(Clamp01(x / whole), x, whole)
  {
    var q := x / whole;
    assert q * whole == x;
    if x <= 0.0 {
      DivideMonotone(x, 0.0, whole);
    } else if x >= whole {
      DivideMonotone(whole, x, whole);
      assert whole / whole == 1.0;
    } else {
      DivideMonotone(0.0, x, whole);
      DivideMonotone(x, whole, whole);
      assert whole / whole == 1.0;
    }
  }

  /** What the components measure: the free part of the cores, of the user cap
      and of the link... */
  lemma SpareMeaning(input: Inputs, cfg: Config)
    ensures var c := ComponentsOf(input, cfg);
            && (if input.cores > 0 then ShareOf(1.0 - c.load, input.load1, input.cores as real)
                else ShareOf(1.0 - c.load, input.load15, 1.0))
            && ShareOf(1.0 - c.users, input.users, if cfg.softCap > 0.0 then cfg.softCap else 1.0)
            && ShareOf(1.0 - c.bwCapacity, input.txBps, if input.linkCapacity > 0.0 then input.linkCapacity else 1.0)
  {
    if input.cores > 0 {
      ClampedShare(input.load1, input.cores as real);
    } else {
      ClampedShare(input.load15, 1.0);
    }
    ClampedShare(input.users, Positive(cfg.softCap));
    ClampedShare(input.txBps, Positive(input.linkCapacity));
  }

  /** ...the rate per user against its target, the heartbeats of a day against
      those due, and the uptime against thirty days. */
  lemma ServiceMeaning(input: Inputs, cfg: Config)
    ensures var c := ComponentsOf(input, cfg);
            && ShareOf(c.bwPerUser, if input.users > 1.0 then input.txBps / input.users else input.txBps,
                       if cfg.targetBps > 0.0 then cfg.targetBps else 1.0)
            && ShareOf(c.reliability, input.heartbeats as real, Due(cfg.heartbeatEvery))
            && ShareOf(c.uptime, input.uptimeDays, 30.0)
  {
    assert input.txBps / RMax(input.users, 1.0) == if input.users > 1.0 then input.txBps / input.users else input.txBps;
    ClampedShare(input.txBps / RMax(input.users, 1.0), Positive(cfg.targetBps));
    DueHeartbeats(cfg.heartbeatEvery);
    ClampedShare(input.heartbeats as real, Due(cfg.heartbeatEvery));
    UptimeShare(input.uptimeDays);
  }

  /** The heartbeats due in a day: one every so many seconds, and at least one. */
  function Due(every: nat): real
  {
    if every == 0 then 86_400.0 else if every <= 86_400 then 86_400.0 / every as real else 1.0
  }

  lemma UptimeShare(days: real)
    ensures ShareOf(Clamp01(RMin(days, 30.0) / 30.0), days, 30.0)
  {
    ClampedShare(RMin(days, 30.0), 30.0);
  }

  lemma DueHeartbeats(every: nat)
    ensures RMax(86_400.0 / (if every >= 1 then every else 1) as real, 1.0) == Due(every) >= 1.0
  {
    assert 86_400.0 / 86_400.0 == 1.0 && 86_400.0 / 1.0 == 86_400.0;
    if 1 <= every <= 86_400 {
      DivideByMore(86_400.0, every as real, 86_400.0);
    } else if every > 86_400 {
      DivideByMore(86_400.0, 86_400.0, every as real);
    }
  }

  ghost predicate SumsToOne(cfg: Config)
  {
    cfg.wLoad + cfg.wUsers + cfg.wBwCapacity + cfg.wBwPerUser + cfg.wReliability + cfg.wUptime == 1.0
  }

  /** With weights that sum to one the score is the weighted mean itself, a
      hundred for a node that is best in everything and zero for the worst. */
  lemma ScoreIsMean(input: Inputs, cfg: Config)
    requires IsWeighting(cfg) && SumsToOne(cfg)
    ensures var c := ComponentsOf(input, cfg);
            && Formula(input, cfg) == Weighted(c, cfg)
            && (NoBetter(Components(1.0, 1.0, 1.0, 1.0, 1.0, 1.0), c) ==> Formula(input, cfg) == 100.0)
            && (NoBetter(c, Components(0.0, 0.0, 0.0, 0.0, 0.0, 0.0)) ==> Formula(input, cfg) == 0.0)
  {
    var c := ComponentsOf(input, cfg);
    var none, all := Components(0.0, 0.0, 0.0, 0.0, 0.0, 0.0), Components(1.0, 1.0, 1.0, 1.0, 1.0, 1.0);
    assert Weighted(none, cfg) == 0.0 && Weighted(all, cfg) == 100.0;
    WeightedMonotone(none, c, cfg);
    WeightedMonotone(c, all, cfg);
  }

  // ---- Averages ----

  function EwmaStep(prev: real, sample: real, dt: real, tau: real, exp: Exp): real
  {
    if tau <= 0.0 || dt <= 0.0 then sample
    else
      var alpha := 1.0 - exp(-dt / tau);
      prev + alpha * (sample - prev)
  }

  datatype Ewma = Ewma(m5: real, h1: real, h24: real, atMs: int)

  /** One observation of a node: its raw score, when, and whether it was stale. */
  datatype Sample = Sample(raw: real, nowMs: int, stale: bool)

  function Elapsed(prev: Ewma, nowMs: int): real
  {
    RMax((nowMs - prev.atMs) as real / 1000.0, 0.0)
  }

  function Advance(prev: Option<Ewma>, s: Sample, exp: Exp): Ewma
  {
    if s.stale then Ewma(0.0, 0.0, 0.0, s.nowMs)
    else if prev.None? then Ewma(s.raw, s.raw, s.raw, s.nowMs)
    else
      var p := prev.value;
      var dt := Elapsed(p, s.nowMs);
      Ewma(EwmaStep(p.m5, s.raw, dt, TAU_5M, exp), EwmaStep(p.h1, s.raw, dt, TAU_1H, exp),
           EwmaStep(p.h24, s.raw, dt, TAU_24H, exp), s.nowMs)
  }

  /** What is published for a node: total, hourly and daily average. */
  datatype Published = Published(total: real, h1: real, h24: real)

  function Publish(s: Sample, e: Ewma): Published
  {
    if s.stale then Published(0.0, 0.0, 0.0) else Published(e.m5, e.h1, e.h24)
  }

  /** A step moves toward the sample and not past it. */
  lemma StepBetween(prev: real, sample: real, dt: real, tau: real, exp: Exp, lo: real, hi: real)
    requires IsExp(exp) && lo <= prev <= hi && lo <= sample <= hi
    ensures lo <= EwmaStep(prev, sample, dt, tau, exp) <= hi
  {
    if tau > 0.0 && dt > 0.0 {
      var k := exp(-dt / tau);
      NegativeRatio(dt, tau);
      MixAbove(prev, sample, k, 1.0 - k, lo);
      MixBelow(prev, sample, k, 1.0 - k, hi);
      StepIsMix(prev, sample, k);
    }
  }

  lemma NegativeRatio(dt: real, tau: real)
    requires dt > 0.0 && tau > 0.0
    ensures -dt / tau < 0.0
  {
    assert -dt / tau == -(dt / tau);
  }

  lemma StepIsMix(prev: real, sample: real, k: real)
    ensures prev + (1.0 - k) * (sample - prev) == k * prev + (1.0 - k) * sample
  {
    assert (1.0 - k) * (sample - prev) == (1.0 - k) * sample - (1.0 - k) * prev;
    assert (1.0 - k) * prev == prev - k * prev;
  }

  lemma Weights(k: real, j: real, x: real)
    requires k + j == 1.0
    ensures k * x + j * x == x
  {
    assert k * x + j * x == (k + j) * x;
  }

  lemma MixAbove(a: real, b: real, k: real, j: real, lo: real)
    requires k + j == 1.0 && 0.0 <= k && 0.0 <= j && lo <= a && lo <= b
    ensures lo <= k * a + j * b
  {
    assert k * (a - lo) >= 0.0 && j * (b - lo) >= 0.0;
    assert k * (a - lo) == k * a - k * lo;
    assert j * (b - lo) == j * b - j * lo;
    Weights(k, j, lo);
  }

  lemma MixBelow(a: real, b: real, k: real, j: real, hi: real)
    requires k + j == 1.0 && 0.0 <= k && 0.0 <= j && a <= hi && b <= hi
    ensures k * a + j * b <= hi
  {
    assert k * (hi - a) >= 0.0 && j * (hi - b) >= 0.0;
    assert k * (hi - a) == k * hi - k * a;
    assert j * (hi - b) == j * hi - j * b;
    Weights(k, j, hi);
  }

  // ---- Runs of one node ----

  function RunEwma(ss: seq<Sample>, exp: Exp): Option<Ewma>
  {
    if ss == [] then None
    else Some(Advance(RunEwma(ss[..|ss| - 1], exp), ss[|ss| - 1], exp))
  }

  /** The samples that can still matter: since the last stale reset, which
      itself counts as a zero. */
  function SinceReset(ss: seq<Sample>): seq<real>
  {
    if ss == [] then []
    else if ss[|ss| - 1].stale then [0.0]
    else SinceReset(ss[..|ss| - 1]) + [ss[|ss| - 1].raw]
  }

  ghost predicate Within(xs: seq<real>, lo: real, hi: real)
  {
    forall i :: 0 <= i < |xs| ==> lo <= xs[i] <= hi
  }

  ghost predicate EwmaWithin(e: Ewma, lo: real, hi: real)
  {
    lo <= e.m5 <= hi && lo <= e.h1 <= hi && lo <= e.h24 <= hi
  }

  /** Every average stays in the hull of the samples since the last reset. */
  lemma {:induction false} AveragesInHull(ss: seq<Sample>, exp: Exp, lo: real, hi: real)
    requires IsExp(exp) && ss != [] && Within(SinceReset(ss), lo, hi)
    ensures EwmaWithin(RunEwma(ss, exp).value, lo, hi)
  {
    var before, s := ss[..|ss| - 1], ss[|ss| - 1];
    var kept := SinceReset(ss);
    if s.stale {
      assert lo <= kept[0] <= hi;
    } else {
      assert kept[|kept| - 1] == s.raw;
      if before != [] {
        var earlier := SinceReset(before);
        assert forall i :: 0 <= i < |earlier| ==> earlier[i] == kept[i];
        AveragesInHull(before, exp, lo, hi);
        var p := RunEwma(before, exp).value;
        var dt := Elapsed(p, s.nowMs);
        StepBetween(p.m5, s.raw, dt, TAU_5M, exp, lo, hi);
        StepBetween(p.h1, s.raw, dt, TAU_1H, exp, lo, hi);
        StepBetween(p.h24, s.raw, dt, TAU_24H, exp, lo, hi);
      }
    }
  }

  lemma {:induction false} SinceResetWithin(ss: seq<Sample>, lo: real, hi: real)
    requires lo <= 0.0 <= hi && forall i :: 0 <= i < |ss| ==> lo <= ss[i].raw <= hi
    ensures Within(SinceReset(ss), lo, hi)
  {
    if ss != [] && !ss[|ss| - 1].stale {
      SinceResetWithin(ss[..|ss| - 1], lo, hi);
    }
  }

  /** Scores being between 0 and 100, so are the averages and what is published. */
  lemma PublishedInRange(ss: seq<Sample>, exp: Exp)
    requires IsExp(exp) && ss != [] && forall i :: 0 <= i < |ss| ==> 0.0 <= ss[i].raw <= 100.0
    ensures var e := RunEwma(ss, exp).value;
            var p := Publish(ss[|ss| - 1], e);
            && EwmaWithin(e, 0.0, 100.0)
            && 0.0 <= p.total <= 100.0 && 0.0 <= p.h1 <= 100.0 && 0.0 <= p.h24 <= 100.0
  {
    SinceResetWithin(ss, 0.0, 100.0);
    AveragesInHull(ss, exp, 0.0, 100.0);
  }

  // ---- Faster averages lead ----

  /** The distances to `c`, all on one side, the fast average nearest. */
  ghost predicate FastestNearest(e: Ewma, c: real)
  {
    || 0.0 <= e.m5 - c <= e.h1 - c <= e.h24 - c
    || 0.0 <= c - e.m5 <= c - e.h1 <= c - e.h24
  }

  /** A step toward a constant sample shrinks the distance by the decay factor. */
  lemma StepShrinks(prev: real, c: real, dt: real, tau: real, exp: Exp)
    requires IsExp(exp) && dt > 0.0 && tau > 0.0
    ensures var k := exp(-dt / tau);
            0.0 < k < 1.0 && EwmaStep(prev, c, dt, tau, exp) - c == k * (prev - c)
  {
    var k := exp(-dt / tau);
    NegativeRatio(dt, tau);
    StepIsMix(prev, c, k);
    assert k * (prev - c) == k * prev - k * c;
    assert (1.0 - k) * c == c - k * c;
  }

  /** The distance to the sample shrinks by the decay over `dt`. */
  ghost predicate Decays(before: real, after: real, raw: real, dt: real, tau: real, exp: Exp)
    requires tau != 0.0
  {
    after - raw == exp(-dt / tau) * (before - raw)
  }

  lemma StepDecays(before: real, raw: real, dt: real, tau: real, exp: Exp)
    requires IsExp(exp) && dt > 0.0 && tau > 0.0
    ensures Decays(before, EwmaStep(before, raw, dt, tau, exp), raw, dt, tau, exp)
  {
    StepShrinks(before, raw, dt, tau, exp);
  }

  lemma SecondsBetween(p: Ewma, nowMs: int)
    requires p.atMs < nowMs
    ensures Elapsed(p, nowMs) == (nowMs - p.atMs) as real / 1000.0 > 0.0
  {
  }

  /** What an observation does to the averages: a stale one zeroes them, the first
      sets them, and any later one shrinks each distance to it by the decay over
      the seconds since, with five minutes, an hour and a day. */
  lemma AdvanceMeaning(prev: Option<Ewma>, s: Sample, exp: Exp)
    requires IsExp(exp)
    ensures var e := Advance(prev, s, exp);
            var out := Publish(s, e);
            && e.atMs == s.nowMs && (out.total, out.h1, out.h24) == (e.m5, e.h1, e.h24)
            && if s.stale then e.m5 == e.h1 == e.h24 == 0.0
               else if prev.None? || s.nowMs <= prev.value.atMs then e.m5 == e.h1 == e.h24 == s.raw
               else
                 var p, dt := prev.value, (s.nowMs - prev.value.atMs) as real / 1000.0;
                 && Decays(p.m5, out.total, s.raw, dt, 300.0, exp) && Decays(p.h1, out.h1, s.raw, dt, 3600.0, exp)
                 && Decays(p.h24, out.h24, s.raw, dt, 86400.0, exp)
  {
    if !s.stale && prev.Some? && s.nowMs > prev.value.atMs {
      var p, dt := prev.value, (s.nowMs - prev.value.atMs) as real / 1000.0;
      SecondsBetween(p, s.nowMs);
      StepDecays(p.m5, s.raw, dt, 300.0, exp);
      StepDecays(p.h1, s.raw, dt, 3600.0, exp);
      StepDecays(p.h24, s.raw, dt, 86400.0, exp);
    }
  }

  lemma FasterDecay(dt: real, tau: real, tau': real, exp: Exp)
    requires IsExp(exp) && dt > 0.0 && 0.0 < tau < tau'
    ensures exp(-dt / tau) < exp(-dt / tau')
  {
    var x, y := dt / tau, dt / tau';
    assert x * tau == dt && y * tau' == dt && y > 0.0;
    assert y * (tau' - tau) > 0.0;
    assert tau * (x - y) > 0.0;
    PositiveFactor(tau, x - y);
    assert -dt / tau == -x && -dt / tau' == -y;
  }

  lemma PositiveFactor(a: real, b: real)
    requires a > 0.0 && a * b > 0.0
    ensures b > 0.0
  {
  }

  lemma ScaledOrder(k: real, l: real, a: real, b: real)
    requires 0.0 < k < l && 0.0 <= a <= b
    ensures 0.0 <= k * a <= l * b
  {
    ScaleDown(k, a, b);
    ScaleDown(b, k, l);
  }

  /** Scaling ordered distances by increasing factors keeps their order. */
  lemma ScaledThrice(k5: real, k1: real, k24: real, a: real, b: real, d: real)
    requires 0.0 < k5 < k1 < k24 && 0.0 <= a <= b <= d
    ensures 0.0 <= k5 * a <= k1 * b <= k24 * d
  {
    ScaledOrder(k5, k1, a, b);
    ScaledOrder(k1, k24, b, d);
  }

  lemma Flip(k: real, a: real, c: real)
    ensures k * (a - c) == -(k * (c - a))
  {
  }

  lemma ShrunkAbove(p: Ewma, c: real, dt: real, exp: Exp)
    requires IsExp(exp) && dt > 0.0 && 0.0 <= p.m5 - c <= p.h1 - c <= p.h24 - c
    ensures 0.0 <= EwmaStep(p.m5, c, dt, TAU_5M, exp) - c <= EwmaStep(p.h1, c, dt, TAU_1H, exp) - c
                <= EwmaStep(p.h24, c, dt, TAU_24H, exp) - c
  {
    var k5, k1, k24 := exp(-dt / TAU_5M), exp(-dt / TAU_1H), exp(-dt / TAU_24H);
    StepShrinks(p.m5, c, dt, TAU_5M, exp);
    StepShrinks(p.h1, c, dt, TAU_1H, exp);
    StepShrinks(p.h24, c, dt, TAU_24H, exp);
    FasterDecay(dt, TAU_5M, TAU_1H, exp);
    FasterDecay(dt, TAU_1H, TAU_24H, exp);
    ScaledThrice(k5, k1, k24, p.m5 - c, p.h1 - c, p.h24 - c);
  }

  lemma ShrunkBelow(p: Ewma, c: real, dt: real, exp: Exp)
    requires IsExp(exp) && dt > 0.0 && 0.0 <= c - p.m5 <= c - p.h1 <= c - p.h24
    ensures 0.0 <= c - EwmaStep(p.m5, c, dt, TAU_5M, exp) <= c - EwmaStep(p.h1, c, dt, TAU_1H, exp)
                <= c - EwmaStep(p.h24, c, dt, TAU_24H, exp)
  {
    var k5, k1, k24 := exp(-dt / TAU_5M), exp(-dt / TAU_1H), exp(-dt / TAU_24H);
    StepShrinks(p.m5, c, dt, TAU_5M, exp);
    StepShrinks(p.h1, c, dt, TAU_1H, exp);
    StepShrinks(p.h24, c, dt, TAU_24H, exp);
    FasterDecay(dt, TAU_5M, TAU_1H, exp);
    FasterDecay(dt, TAU_1H, TAU_24H, exp);
    ScaledThrice(k5, k1, k24, c - p.m5, c - p.h1, c - p.h24);
    Flip(k5, p.m5, c);
    Flip(k1, p.h1, c);
    Flip(k24, p.h24, c);
  }

  lemma AdvanceKeepsOrder(p: Ewma, c: real, nowMs: int, exp: Exp)
    requires IsExp(exp) && FastestNearest(p, c)
    ensures FastestNearest(Advance(Some(p), Sample(c, nowMs, false), exp), c)
  {
    var dt := Elapsed(p, nowMs);
    if dt > 0.0 {
      if 0.0 <= p.m5 - c <= p.h1 - c <= p.h24 - c {
        ShrunkAbove(p, c, dt, exp);
      } else {
        ShrunkBelow(p, c, dt, exp);
      }
    }
  }

  function Constant(c: real, times: seq<int>): seq<Sample>
  {
    seq(|times|, i requires 0 <= i < |times| => Sample(c, times[i], false))
  }

  function RunFrom(start: Ewma, ss: seq<Sample>, exp: Exp): Ewma
  {
    if ss == [] then start else Advance(Some(RunFrom(start, ss[..|ss| - 1], exp)), ss[|ss| - 1], exp)
  }

  /** From a common start and under a constant sample, whatever the tick
      times, the five-minute average is always at least as close to the sample
      as the hourly one, and that as the daily one, all from the same side. */
  lemma {:induction false} FastAveragesLead(start: Ewma, c: real, times: seq<int>, exp: Exp)
    requires IsExp(exp) && start.m5 == start.h1 == start.h24
    ensures FastestNearest(RunFrom(start, Constant(c, times), exp), c)
  {
    if times != [] {
      var n := |times| - 1;
      assert Constant(c, times)[..n] == Constant(c, times[..n]);
      FastAveragesLead(start, c, times[..n], exp);
      AdvanceKeepsOrder(RunFrom(start, Constant(c, times[..n]), exp), c, times[n], exp);
    }
  }

  lemma {:induction false} RunAfterFirst(s: Sample, ss: seq<Sample>, exp: Exp)
    ensures RunEwma([s] + ss, exp) == Some(RunFrom(Advance(None, s, exp), ss, exp))
  {
    if ss == [] {
      assert [s] + ss == [s];
      assert RunEwma([], exp) == None;
    } else {
      assert ([s] + ss)[..|ss|] == [s] + ss[..|ss| - 1];
      RunAfterFirst(s, ss[..|ss| - 1], exp);
    }
  }

  /** So it is for what is published of a node from its first observation on:
      the total leads the hourly average, and that the daily one. */
  lemma NewNodeLeads(first: Sample, c: real, times: seq<int>, exp: Exp)
    requires IsExp(exp) && times != []
    ensures var ss := [first] + Constant(c, times);
            var p := Publish(ss[|ss| - 1], RunEwma(ss, exp).value);
            || 0.0 <= p.total - c <= p.h1 - c <= p.h24 - c
            || 0.0 <= c - p.total <= c - p.h1 <= c - p.h24
  {
    RunAfterFirst(first, Constant(c, times), exp);
    FastAveragesLead(Advance(None, first, exp), c, times, exp);
  }

  // ---- Ticks over all nodes ----

  type NodeId = nat

  datatype Row = Row(node: NodeId, sample: Sample)

  /** The smoothing state after a tick, row by row. */
  function AdvanceAll(smooth: map<NodeId, Ewma>, rows: seq<Row>, exp: Exp): map<NodeId, Ewma>
  {
    if rows == [] then smooth else
      var before, row := AdvanceAll(smooth, rows[..|rows| - 1], exp), rows[|rows| - 1];
      var prev := if row.node in before then Some(before[row.node]) else None;
      before[row.node := Advance(prev, row.sample, exp)]
  }

  /** What is published so far is each row's sample with the averages after it. */
  ghost predicate PublishedSoFar(published: seq<Published>, smooth: map<NodeId, Ewma>, rows: seq<Row>, exp: Exp)
  {
    && |published| <= |rows|
    && forall j :: 0 <= j < |published| ==>
         published[j] == Publish(rows[j].sample, AdvanceAll(smooth, rows[..j + 1], exp)[rows[j].node])
  }

  lemma AdvanceNext(published: seq<Published>, smooth: map<NodeId, Ewma>, rows: seq<Row>, exp: Exp, next: Ewma)
    requires PublishedSoFar(published, smooth, rows, exp) && |published| < |rows|
    requires var before, row := AdvanceAll(smooth, rows[..|published|], exp), rows[|published|];
             next == Advance(if row.node in before then Some(before[row.node]) else None, row.sample, exp)
    ensures var i := |published|;
            && AdvanceAll(smooth, rows[..i + 1], exp) == AdvanceAll(smooth, rows[..i], exp)[rows[i].node := next]
            && PublishedSoFar(published + [Publish(rows[i].sample, next)], smooth, rows, exp)
  {
    var i := |published|;
    assert rows[..i + 1][..i] == rows[..i];
  }

  class Scorer {
    var smooth: map<NodeId, Ewma>

    constructor ()
      ensures smooth == map[]
    {
      smooth := map[];
    }

    /** Advance and publish each observed node in turn. */
    method Tick(rows: seq<Row>, exp: Exp) returns (published: seq<Published>)
      modifies this
      ensures smooth == AdvanceAll(old(smooth), rows, exp)
      ensures |published| == |rows|
      ensures forall i :: 0 <= i < |rows| ==>
                published[i] == Publish(rows[i].sample, AdvanceAll(old(smooth), rows[..i + 1], exp)[rows[i].node])
    {
      published := [];
      for i := 0 to |rows|
        invariant smooth == AdvanceAll(old(smooth), rows[..i], exp)
        invariant |published| == i && PublishedSoFar(published, old(smooth), rows, exp)
      {
        var row := rows[i];
        var prev := if row.node in smooth then Some(smooth[row.node]) else None;
        var next := Advance(prev, row.sample, exp);
        AdvanceNext(published, old(smooth), rows, exp, next);
        published := published + [Publish(row.sample, next)];
        smooth := smooth[row.node := next];
      }
      assert rows[..|rows|] == rows;
    }
  }

  function Of(node: NodeId, rows: seq<Row>): seq<Sample>
  {
    if rows == [] then [] else
      var before, row := Of(node, rows[..|rows| - 1]), rows[|rows| - 1];
      if row.node == node then before + [row.sample] else before
  }

  /** However ticks mix the nodes, each node's averages are those of its own samples. */
  lemma {:induction false} NodesIndependent(rows: seq<Row>, exp: Exp, node: NodeId)
    ensures var all, own := AdvanceAll(map[], rows, exp), RunEwma(Of(node, rows), exp);
            if own.Some? then node in all && all[node] == own.value else node !in all
  {
    if rows != [] {
      NodesIndependent(rows[..|rows| - 1], exp, node);
      var row := rows[|rows| - 1];
      if row.node == node {
        var before := Of(node, rows[..|rows| - 1]);
        assert (before + [row.sample])[..|before|] == before;
      }
    }
  }

  ghost predicate RawsInRange(rows: seq<Row>)
  {
    forall k :: 0 <= k < |rows| ==> 0.0 <= rows[k].sample.raw <= 100.0
  }

  lemma {:induction false} OwnRawsInRange(rows: seq<Row>, node: NodeId)
    requires RawsInRange(rows)
    ensures forall k :: 0 <= k < |Of(node, rows)| ==> 0.0 <= Of(node, rows)[k].raw <= 100.0
  {
    if rows != [] {
      OwnRawsInRange(rows[..|rows| - 1], node);
    }
  }

  /** Over every run of ticks, whatever the nodes and their order, every row
      published and every average kept stays within [0, 100]. */
  lemma EveryScoreInRange(rows: seq<Row>, exp: Exp, i: nat)
    requires IsExp(exp) && i < |rows| && RawsInRange(rows)
    ensures var node, all := rows[i].node, AdvanceAll(map[], rows[..i + 1], exp);
            && node in all && EwmaWithin(all[node], 0.0, 100.0)
            && var p := Publish(rows[i].sample, all[node]);
               0.0 <= p.total <= 100.0 && 0.0 <= p.h1 <= 100.0 && 0.0 <= p.h24 <= 100.0
  {
    var node, upto := rows[i].node, rows[..i + 1];
    var own := Of(node, upto);
    assert own == Of(node, upto[..i]) + [rows[i].sample];
    OwnRawsInRange(upto, node);
    NodesIndependent(upto, exp, node);
    PublishedInRange(own, exp);
  }
}
