/**
 What the relay's calls answer: the errors and when they come, the messages a
 pull or a poll hands out, and that over every run these are the deliveries.
 */
module MeshAnswers {
  import opened Collections
  import opened MeshTables
  import opened MeshRelay

  // ---- Keys ----

  ghost predicate AllSpace(s: string) { forall i :: 0 <= i < |s| ==> IsSpace(s[i]) }

  lemma {:induction false} TrimLeftSplits(s: string) returns (a: string)
    ensures s == a + TrimLeft(s) && AllSpace(a) && (TrimLeft(s) != [] ==> !IsSpace(TrimLeft(s)[0]))
  {
    a := [];
    if s != [] && IsSpace(s[0]) {
      var rest := TrimLeftSplits(s[1..]);
      a := [s[0]] + rest;
    }
  }

  lemma {:induction false} TrimRightSplits(s: string) returns (b: string)
    ensures s == TrimRight(s) + b && AllSpace(b) && (TrimRight(s) != [] ==> !IsSpace(TrimRight(s)[|TrimRight(s)| - 1]))
  {
    b := [];
    if s != [] && IsSpace(s[|s| - 1]) {
      var rest := TrimRightSplits(s[..|s| - 1]);
      b := rest + [s[|s| - 1]];
    }
  }

  lemma {:induction false} TrimLeftOf(a: string, s: string)
    requires AllSpace(a) && (s != [] ==> !IsSpace(s[0]))
    ensures TrimLeft(a + s) == s
    decreases |a|
  {
    if a == [] {
      assert a + s == s;
    } else {
      assert (a + s)[1..] == a[1..] + s;
      TrimLeftOf(a[1..], s);
    }
  }

  lemma {:induction false} TrimRightOf(s: string, b: string)
    requires AllSpace(b) && (s != [] ==> !IsSpace(s[|s| - 1]))
    ensures TrimRight(s + b) == s
    decreases |b|
  {
    if b == [] {
      assert s + b == s;
    } else {
      assert (s + b)[..|s + b| - 1] == s + b[..|b| - 1];
      TrimRightOf(s, b[..|b| - 1]);
    }
  }

  /** `text` is `key` in any mixture of cases. */
  ghost predicate Spells(text: string, key: Key)
  {
    |text| == |key| && forall i :: 0 <= i < |key| ==>
      text[i] == key[i] || ('a' <= key[i] <= 'z' && text[i] as int == key[i] as int - 32)
  }

  ghost predicate IsKey(key: Key)
  {
    |key| == 64 && forall i :: 0 <= i < |key| ==> '0' <= key[i] <= '9' || 'a' <= key[i] <= 'f'
  }

  lemma LowerIff(text: string, key: Key)
    requires IsKey(key)
    ensures Spells(text, key) <==> |text| == 64 && forall i :: 0 <= i < 64 ==> LowerChar(text[i]) == key[i]
  {
  }

  lemma SpelledKeyTrims(a: string, text: string, b: string, key: Key)
    requires AllSpace(a) && AllSpace(b) && IsKey(key) && Spells(text, key)
    ensures TrimRight(TrimLeft(a + text + b)) == text
  {
    assert a + text + b == a + (text + b) && (text + b)[0] == text[0];
    TrimLeftOf(a, text + b);
    TrimRightOf(text, b);
  }

  /** A text is accepted as a key exactly if, up to white space around it, it
      spells 64 hex digits in any case; the key is their lower-case spelling. */
  lemma NormalizeIff(raw: string, key: Key)
    ensures NormalizePubkey(raw) == Ok(key) <==>
            IsKey(key) && exists a, text, b :: raw == a + text + b && AllSpace(a) && AllSpace(b) && Spells(text, key)
    ensures NormalizePubkey(raw).Err? ==> NormalizePubkey(raw).error == BadInput
  {
    if NormalizePubkey(raw) == Ok(key) {
      var a := TrimLeftSplits(raw);
      var b := TrimRightSplits(TrimLeft(raw));
      var text := TrimRight(TrimLeft(raw));
      LowerIff(text, key);
      assert raw == a + text + b;
    }
    if IsKey(key) && exists a, text, b :: raw == a + text + b && AllSpace(a) && AllSpace(b) && Spells(text, key) {
      var a, text, b :| raw == a + text + b && AllSpace(a) && AllSpace(b) && Spells(text, key);
      SpelledKeyTrims(a, text, b, key);
      LowerIff(text, key);
      assert seq(|text|, i requires 0 <= i < |text| => LowerChar(text[i])) == key;
    }
  }

  // ---- Errors ----

  /** The clocks differ by more than five minutes. */
  predicate Skewed(ts: int, now: int) { now - ts > 300 || ts - now > 300 }

  /** What comes first in the way of a register request, before the tables. */
  lemma RequestErrors(req: RegisterRequest)
    ensures var r, noise, signing := CheckRequest(req), NormalizePubkey(req.noise), NormalizePubkey(req.signing);
            var paired := req.id.Some? && req.secret == req.id;
            && (r == Err(SubscriptionRejected) <==>
                  req.id.Some? && (!paired || req.allows == Some(false)))
            && (r == Err(Internal) <==> paired && req.allows.None?)
            && (r == Err(BadInput) <==>
                  || req.id.None?
                  || (paired && req.allows == Some(true) &&
                      (noise.Err? || signing.Err? ||
                       (req.name.Some? && (|req.name.value| > 32 || exists c :: c in req.name.value && IsControl(c))))))
            && (r.Ok? ==> req.id == Some(r.value.sub) && noise == Ok(r.value.noise) && signing == Ok(r.value.signing))
            && (r.Err? ==> r.error in {SubscriptionRejected, Internal, BadInput})
  {
    if req.name.Some? && !NameOk(req.name.value) && |req.name.value| <= 32 {
      var i :| 0 <= i < |req.name.value| && IsControl(req.name.value[i]);
      assert req.name.value[i] in req.name.value;
    }
  }

  /** When a send is refused before its first envelope, and by which error; a
      refusal changes nothing and wakes nobody.  Otherwise its outcome is that
      of its envelopes, and the sender's device is marked seen on success only. */
  lemma SendErrors(t: Tables, from: Uin, to: Uin, envs: seq<Envelope>, ts: int, sender: Option<Key>, now: int)
    ensures var (t', r, woken) := MeshTables.Send(t, from, to, envs, ts, sender, now);
            if envs == [] then (t', r, woken) == (t, Err(BadInput), [])
            else if Skewed(ts, now) then (t', r, woken) == (t, Err(BadTimestamp), [])
            else if from !in t.identities || to !in t.identities then (t', r, woken) == (t, Err(UnknownUin), [])
            else if sender.None? then (t', r, woken) == (t, Err(BadSignature), [])
            else
              var stored := StoreAll(t, from, to, envs, now);
              && r == stored.1 && woken == stored.2 && t'.slots == stored.0.slots
              && t'.identities == t.identities && t'.devices.Keys == t.devices.Keys
              && forall k :: k in t.devices ==>
                   t'.devices[k] ==
                   t.devices[k].(lastSeen := if r.Ok? && k == sender.value then now else t.devices[k].lastSeen)
  {
    if envs != [] && !Skewed(ts, now) && from in t.identities && to in t.identities && sender.Some? {
      StoreAllSlotsOnly(t, from, to, envs, now);
    }
  }

  lemma {:induction false} StoreAllSlotsOnly(t: Tables, from: Uin, to: Uin, envs: seq<Envelope>, now: int)
    ensures StoreAll(t, from, to, envs, now).0.identities == t.identities
    ensures StoreAll(t, from, to, envs, now).0.devices == t.devices
    decreases |envs|
  {
    if envs != [] && Admit(t, to, envs[0], now).Ok? {
      var pk := Admit(t, to, envs[0], now).value;
      StoreAllSlotsOnly(InsertSlot(t, to, pk, from, envs[0].ciphertext, now), from, to, envs[1..], now);
    }
  }

  /** How many unexpired slots a device has. */
  ghost function InboxSize(t: Tables, uin: Uin, device: Key, now: int): nat
  {
    |set k | 0 <= k < |t.slots| && t.slots[k].uin == uin && t.slots[k].device == device && t.slots[k].expiresAt > now|
  }

  ghost function Members(at: seq<nat>): set<nat> { set k | k in at }

  lemma {:induction false} CountPositions(at: seq<nat>)
    requires forall i, j :: 0 <= i < j < |at| ==> at[i] < at[j]
    ensures |Members(at)| == |at|
  {
    if at != [] {
      var init, last := at[..|at| - 1], at[|at| - 1];
      CountPositions(init);
      assert at == init + [last];
      assert Members(at) == Members(init) + {last} && last !in Members(init);
    }
  }

  lemma LiveCount(t: Tables, uin: Uin, device: Key, now: int)
    ensures |LiveSlots(t, uin, device, now)| == InboxSize(t, uin, device, now)
  {
    var at := FilterPositions(t.slots, Live(uin, device, now));
    CountPositions(at);
    assert forall k :: k in at ==> k < |t.slots|;
    assert Members(at) ==
           set k | 0 <= k < |t.slots| && t.slots[k].uin == uin && t.slots[k].device == device && t.slots[k].expiresAt > now;
  }

  /** Which envelopes are stored, and which error refuses the others. */
  lemma AdmitIff(t: Tables, to: Uin, env: Envelope, now: int)
    ensures var r, pk := Admit(t, to, env, now), NormalizePubkey(env.device);
            var own := pk.Ok? && pk.value in t.devices && t.devices[pk.value].uin == to;
            && (r == Err(BadInput) <==> pk.Err? || env.ciphertext == "" || !own)
            && (r == Err(InboxFull) <==> own && env.ciphertext != "" && InboxSize(t, to, pk.value, now) >= 100)
            && (r.Ok? <==> own && env.ciphertext != "" && InboxSize(t, to, pk.value, now) < 100)
            && (r.Ok? ==> r == pk)
  {
    var pk := NormalizePubkey(env.device);
    if pk.Ok? {
      LiveCount(t, to, pk.value, now);
    }
  }

  /** A poll begins by marking its device seen and joining the polls in flight. */
  lemma EnterMeaning(r: Relay, id: nat, c: Chan)
    requires c.device in r.t.devices
    ensures var r' := EnterStep(r, id, c);
            && r'.t == r.t.(devices := r'.t.devices) && r'.t.devices.Keys == r.t.devices.Keys
            && (forall k :: k in r.t.devices ==>
                  r'.t.devices[k] ==
                  r.t.devices[k].(lastSeen := if k == c.device then r.clock else r.t.devices[k].lastSeen))
            && r'.pollers == r.pollers[id := Poller(c, Entered)] && c in r'.polls
  {
  }

  // ---- What a pull hands out ----

  /** `views` are the messages at the given rows, in order. */
  ghost predicate Shows(views: seq<SlotView>, slots: seq<Slot>, at: seq<nat>)
  {
    && |views| == |at|
    && (forall i :: 0 <= i < |at| ==> at[i] < |slots|)
    && (forall i, j :: 0 <= i < j < |at| ==> at[i] < at[j])
    && forall i :: 0 <= i < |at| ==> views[i].from == slots[at[i]].from && views[i].ciphertext == slots[at[i]].ciphertext
  }

  /** `at` are the rows waiting for the device and not yet expired. */
  ghost predicate WaitingAt(slots: seq<Slot>, uin: Uin, device: Key, now: int, at: seq<nat>)
  {
    forall k :: 0 <= k < |slots| ==>
      (k in at <==> slots[k].uin == uin && slots[k].device == device && slots[k].expiresAt > now)
  }

  lemma ViewsShow(t: Tables, uin: Uin, device: Key, now: int) returns (at: seq<nat>)
    ensures Shows(Views(LiveSlots(t, uin, device, now)), t.slots, at) && WaitingAt(t.slots, uin, device, now, at)
  {
    at := FilterPositions(t.slots, Live(uin, device, now));
  }

  /** The other rows stay, in their order. */
  lemma TakeLeaves(t: Tables, uin: Uin, device: Key, now: int) returns (rest: seq<nat>)
    ensures var left := Take(t, uin, device, now);
            && left == t.(slots := left.slots) && |left.slots| == |rest|
            && (forall i :: 0 <= i < |rest| ==> rest[i] < |t.slots| && left.slots[i] == t.slots[rest[i]])
            && (forall i, j :: 0 <= i < j < |rest| ==> rest[i] < rest[j])
            && forall k :: 0 <= k < |t.slots| ==>
                 (k in rest <==> !(t.slots[k].uin == uin && t.slots[k].device == device && t.slots[k].expiresAt > now))
  {
    rest := FilterPositions(t.slots, NotLive(uin, device, now));
  }

  /** What a pull answers: an error exactly for a skewed clock, an unknown UIN or
      a signature of none of its devices, in that order, and then nothing
      changes; else the device's unexpired messages in rowid order, which are
      the rows that leave the table, and the device is marked seen. */
  lemma PullMeaning(t: Tables, uin: Uin, ts: int, d: Option<Key>, now: int) returns (at: seq<nat>, rest: seq<nat>)
    ensures var (t', r) := MeshTables.Pull(t, uin, ts, d, now);
            if Skewed(ts, now) then (t', r) == (t, Err(BadTimestamp))
            else if uin !in t.identities then (t', r) == (t, Err(UnknownUin))
            else if d.None? then (t', r) == (t, Err(BadSignature))
            else
              && r.Ok? && Shows(r.value, t.slots, at) && WaitingAt(t.slots, uin, d.value, now, at)
              && |t'.slots| == |rest|
              && (forall i :: 0 <= i < |rest| ==> rest[i] < |t.slots| && t'.slots[i] == t.slots[rest[i]])
              && (forall i, j :: 0 <= i < j < |rest| ==> rest[i] < rest[j])
              && (forall k :: 0 <= k < |t.slots| ==> (k in rest <==> k !in at))
              && t'.identities == t.identities && t'.serial == t.serial && t'.devices.Keys == t.devices.Keys
              && forall k :: k in t.devices ==>
                   t'.devices[k] == t.devices[k].(lastSeen := if k == d.value then now else t.devices[k].lastSeen)
  {
    at, rest := [], [];
    if !Skewed(ts, now) && uin in t.identities && d.Some? {
      at := ViewsShow(t, uin, d.value, now);
      rest := TakeLeaves(t, uin, d.value, now);
    }
  }

  /** A collection leaves exactly the unexpired rows, in their order. */
  lemma GcMeaning(t: Tables, now: int) returns (rest: seq<nat>)
    ensures var t' := MeshTables.Gc(t, now);
            && t' == t.(slots := t'.slots) && |t'.slots| == |rest|
            && (forall i :: 0 <= i < |rest| ==> rest[i] < |t.slots| && t'.slots[i] == t.slots[rest[i]])
            && (forall i, j :: 0 <= i < j < |rest| ==> rest[i] < rest[j])
            && forall k :: 0 <= k < |t.slots| ==> (k in rest <==> t.slots[k].expiresAt > now)
  {
    rest := FilterPositions(t.slots, Unexpired(now));
  }

  // ---- Answers are deliveries ----

  /** The answer has one view for each delivery, of its sender and text. */
  ghost predicate Tells(views: seq<SlotView>, ds: seq<Delivery>)
  {
    && |views| == |ds|
    && forall i :: 0 <= i < |ds| ==> views[i].from == ds[i].slot.from && views[i].ciphertext == ds[i].slot.ciphertext
  }

  lemma TellsAppend(a: seq<SlotView>, b: seq<SlotView>, x: seq<Delivery>, y: seq<Delivery>)
    requires Tells(a, x) && Tells(b, y)
    ensures Tells(a + b, x + y)
  {
  }

  /** A pull step of the relay is the pull call, and its answer tells exactly
      what it delivers; a refused one delivers nothing. */
  lemma PullIsStep(r: Relay, uin: Uin, ts: int, d: Option<Key>) returns (ds: seq<Delivery>)
    ensures var (t', answer) := MeshTables.Pull(r.t, uin, ts, d, r.clock);
            var r' := PullStep(r, uin, ts, d);
            && r'.t == t' && r'.delivered == r.delivered + ds
            && if answer.Ok? then Tells(answer.value, ds) else ds == [] && t' == r.t
  {
    ds := if Authenticate(r.t, uin, ts, d, r.clock).Ok?
          then Deliveries(Inbox(r, Chan(uin, d.value)), Chan(uin, d.value), r.clock) else [];
  }

  /** What a step hands to its caller: a pull's answer, or the answer a poll
      goes away with. */
  function Answered(r: Relay, e: Event): seq<SlotView>
  {
    if !(r.clock <= e.now && Enabled(Tick(r, e.now), e.op)) then []
    else
      match e.op
      case Pull(uin, ts, _, d) =>
        var answer := MeshTables.Pull(r.t, uin, ts, d, e.now).1;
        if answer.Ok? then answer.value else []
      case Check(id) => PollAnswer(Step(r, e), id)
      case Serve(id) => PollAnswer(Step(r, e), id)
      case _ => []
  }

  function PollAnswer(r: Relay, id: nat): seq<SlotView>
  {
    if id in r.pollers && r.pollers[id].phase.Served? then r.pollers[id].phase.answer else []
  }

  lemma StepAnswers(r: Relay, e: Event) returns (ds: seq<Delivery>)
    ensures Step(r, e).delivered == r.delivered + ds && Tells(Answered(r, e), ds)
  {
    ds := [];
    if r.clock <= e.now && Enabled(Tick(r, e.now), e.op) {
      var r0 := Tick(r, e.now);
      match e.op
      case Pull(uin, ts, _, d) => ds := PullIsStep(r0, uin, ts, d);
      case Check(id) => ds := Deliveries(Inbox(r0, r0.pollers[id].chan), r0.pollers[id].chan, e.now);
      case Serve(id) => ds := Deliveries(Inbox(r0, r0.pollers[id].chan), r0.pollers[id].chan, e.now);
      case _ => OtherStepsDeliverNothing(r0, e.op);
    }
  }

  lemma OtherStepsDeliverNothing(r: Relay, op: Op)
    requires Enabled(r, op) && !op.Pull? && !op.Check? && !op.Serve?
    ensures Apply(r, op).delivered == r.delivered
  {
  }

  function AllAnswers(events: seq<Event>): seq<SlotView>
  {
    if events == [] then [] else
      var n := |events| - 1;
      AllAnswers(events[..n]) + Answered(Run(events[..n]), events[n])
  }

  /** Over every run the answers handed out, one after the other, tell exactly
      the deliveries: what leaves the table for a device reaches a caller. */
  lemma {:induction false} AnswersAreDeliveries(events: seq<Event>)
    ensures Tells(AllAnswers(events), Run(events).delivered)
  {
    if events != [] {
      var n := |events| - 1;
      AnswersAreDeliveries(events[..n]);
      var ds := StepAnswers(Run(events[..n]), events[n]);
      TellsAppend(AllAnswers(events[..n]), Answered(Run(events[..n]), events[n]), Run(events[..n]).delivered, ds);
    }
  }

  ghost predicate HasAnswer(r: Relay, id: nat, answer: seq<SlotView>)
  {
    id in r.pollers && r.pollers[id].phase.Served? && r.pollers[id].phase.answer == answer
  }

  lemma NotifyKeepsAnswer(r: Relay, c: Chan, id: nat, answer: seq<SlotView>)
    requires HasAnswer(r, id, answer)
    ensures HasAnswer(NotifyOne(r, c), id, answer)
  {
  }

  lemma ExitKeepsAnswer(r: Relay, other: nat, id: nat, answer: seq<SlotView>)
    requires HasAnswer(r, id, answer) && other != id && other in r.pollers && HasSignal(r.pollers[other].phase)
    ensures HasAnswer(Exit(r, other), id, answer)
  {
    var c := r.pollers[other].chan;
    NotifyKeepsAnswer(r.(pollers := r.pollers - {other}, polls := CountDown(r.polls, c)), c, id, answer);
  }

  /** A poll keeps its answer until it ends. */
  lemma AnswerKept(r: Relay, e: Event, id: nat, answer: seq<SlotView>)
    requires HasAnswer(r, id, answer) && e.op != Finish(id)
    ensures HasAnswer(Step(r, e), id, answer)
  {
    var r0 := Tick(r, e.now);
    if r.clock <= e.now && Enabled(r0, e.op) {
      match e.op
      case Wake => NotifyKeepsAnswer(r0, r0.waking.value, id, answer);
      case Finish(other) => ExitKeepsAnswer(r0, other, id, answer);
      case Leave(other) => ExitKeepsAnswer(r0, other, id, answer);
      case _ => QuietKeepsAnswer(r0, e.op, id, answer);
    }
  }

  lemma QuietKeepsAnswer(r: Relay, op: Op, id: nat, answer: seq<SlotView>)
    requires HasAnswer(r, id, answer) && Enabled(r, op) && !op.Wake? && !op.Finish? && !op.Leave?
    ensures HasAnswer(Apply(r, op), id, answer)
  {
  }

  /** A poll that finds a message waiting takes the whole inbox at once, one
      that finds none sleeps, and one that was signalled takes what is there. */
  lemma PollTakesInbox(r: Relay, e: Event, id: nat) returns (at: seq<nat>)
    requires e.op == Check(id) || e.op == Serve(id)
    requires r.clock <= e.now && Enabled(Tick(r, e.now), e.op)
    ensures var c, phase := r.pollers[id].chan, Step(r, e).pollers[id].phase;
            && WaitingAt(r.t.slots, c.uin, c.device, e.now, at)
            && (phase.Served? ==> Shows(phase.answer, r.t.slots, at))
            && (phase.Served? <==> e.op.Serve? || at != [])
            && (!phase.Served? ==> phase.Waiting? && Step(r, e).t == r.t)
  {
    at := ViewsShow(r.t, r.pollers[id].chan.uin, r.pollers[id].chan.device, e.now);
  }
}
