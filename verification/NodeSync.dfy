/**
 Runs of a node: batches, the arming, cancelling and finishing of full syncs,
 and the prunes they lead to, in any order.
 */
module NodeSync {
  import opened Collections
  import opened FullSync
  import opened NodePeers

  // ---- What is counted is there ----

  ghost predicate Present(n: Node, tag: Tag, id: Id) { id in n.mem && n.mem[id].tag == tag }

  /** Every id counted by an open sync is in memory under its tag, unless a
      delete for it has come since. */
  ghost predicate SeenPresent(states: States, n: Node, gone: Tag -> set<Id>)
  {
    forall tag, id :: tag in states && id in states[tag].seen ==> Present(n, tag, id) || id in gone(tag)
  }

  /** Each id has one tag for life. */
  ghost predicate Tagged(tags: map<Id, Tag>, n: Node)
  {
    forall id :: id in n.mem ==> id in tags && n.mem[id].tag == tags[id]
  }

  ghost predicate TaggedMessage(tags: map<Id, Tag>, m: Message)
  {
    m.id in tags && m.tag == tags[m.id]
  }

  function DeletedIds(msgs: seq<Message>): set<Id>
  {
    set m | m in msgs && m.action == Delete :: m.id
  }

  /** Memory keeps all connections but those of `ids`. */
  ghost predicate KeptBut(n: Node, n': Node, ids: set<Id>)
  {
    forall id :: id in n.mem && id !in ids ==> id in n'.mem && n'.mem[id] == n.mem[id]
  }

  lemma HandlePresent(tags: map<Id, Tag>, n: Node, msg: Message, env: Env)
    requires Tagged(tags, n) && TaggedMessage(tags, msg)
    ensures var (n', r) := Handle(n, msg, env);
            && Tagged(tags, n') && KeptBut(n, n', if msg.action == Delete then {msg.id} else {})
            && (r == Applied && IsTracked()(msg) ==> Present(n', msg.tag, msg.id))
  {
    assert IsPeerTag(msg.tag) ==> !IsXray(msg.tag);
  }

  lemma {:induction false} ApplyPresent(tags: map<Id, Tag>, n: Node, msgs: seq<Message>, world: nat -> Env, from: nat)
    requires Tagged(tags, n) && forall m :: m in msgs ==> TaggedMessage(tags, m)
    ensures var (n', r, _) := ApplyUntil(n, msgs, world, from);
            && Tagged(tags, n') && KeptBut(n, n', DeletedIds(msgs))
            && (r == Applied ==>
                  forall m :: m in msgs && IsTracked()(m) ==> Present(n', m.tag, m.id) || m.id in DeletedIds(msgs))
    decreases |msgs|
  {
    if msgs != [] {
      var m0, rest := msgs[0], msgs[1..];
      assert m0 in msgs && forall m :: m in msgs ==> m == m0 || m in rest;
      var (n1, r1) := Handle(n, m0, world(from));
      HandlePresent(tags, n, m0, world(from));
      assert DeletedIds(rest) <= DeletedIds(msgs);
      if r1 == Applied {
        ApplyPresent(tags, n1, rest, world, from + 1);
        var n' := ApplyUntil(n1, rest, world, from + 1).0;
        assert IsTracked()(m0) && m0.id !in DeletedIds(msgs) ==> Present(n', m0.tag, m0.id);
      }
    }
  }

  lemma {:induction false} RecordAllMeaning(states: States, msgs: seq<Message>, tag: Tag, id: Id)
    requires tag in RecordAll(states, msgs) && id in RecordAll(states, msgs)[tag].seen
    ensures tag in states && (id in states[tag].seen || exists m :: m in msgs && m.tag == tag && m.id == id)
  {
    if msgs != [] {
      var k := |msgs| - 1;
      var before, m := RecordAll(states, msgs[..k]), msgs[k];
      if tag in before && id in before[tag].seen {
        RecordAllMeaning(states, msgs[..k], tag, id);
      } else {
        assert m in msgs && m.tag == tag && m.id == id;
        RecordKeepsTags(states, msgs[..k]);
      }
    }
  }

  lemma {:induction false} RecordKeepsTags(states: States, msgs: seq<Message>)
    ensures RecordAll(states, msgs).Keys == states.Keys
  {
    if msgs != [] {
      RecordKeepsTags(states, msgs[..|msgs| - 1]);
    }
  }

  /** The messages of a batch that are applied, and what they lead to. */
  function Applies(n: Node, states: States, msgs: seq<Message>): seq<Message>
  {
    Filter(msgs, Unskipped(n, states))
  }

  ghost predicate GoneWith(gone: Tag -> set<Id>, msgs: seq<Message>, later: Tag -> set<Id>)
  {
    forall tag :: gone(tag) + DeletedIds(msgs) <= later(tag)
  }

  lemma AppliesMessages(tags: map<Id, Tag>, n: Node, states: States, msgs: seq<Message>)
    requires forall m :: m in msgs ==> TaggedMessage(tags, m)
    ensures forall m :: m in Applies(n, states, msgs) ==> TaggedMessage(tags, m)
    ensures DeletedIds(Applies(n, states, msgs)) <= DeletedIds(msgs)
  {
    FilterMembers(msgs, Unskipped(n, states));
  }

  /** After an applied batch what its syncs counted is in memory: the skipped
      creates were there, the others have arrived. */
  lemma BatchPresent(tags: map<Id, Tag>, n: Node, states: States, msgs: seq<Message>, world: nat -> Env,
                     gone: Tag -> set<Id>, later: Tag -> set<Id>)
    requires SeenPresent(states, n, gone) && Tagged(tags, n) && forall m :: m in msgs ==> TaggedMessage(tags, m)
    requires ApplyUntil(n, Applies(n, states, msgs), world, 0).1 == Applied && GoneWith(gone, msgs, later)
    ensures SeenPresent(RecordAll(states, Filter(msgs, IsTracked())),
                        ApplyUntil(n, Applies(n, states, msgs), world, 0).0, later)
  {
    var apply, tracked := Applies(n, states, msgs), Filter(msgs, IsTracked());
    var mid := ApplyUntil(n, apply, world, 0).0;
    AppliesMessages(tags, n, states, msgs);
    FilterMembers(msgs, IsTracked());
    ApplyPresent(tags, n, apply, world, 0);
    forall tag, id | tag in RecordAll(states, tracked) && id in RecordAll(states, tracked)[tag].seen
      ensures Present(mid, tag, id) || id in later(tag)
    {
      RecordAllMeaning(states, tracked, tag, id);
      assert gone(tag) + DeletedIds(msgs) <= later(tag);
      if id in states[tag].seen {
        assert Present(n, tag, id) || id in gone(tag);
      } else {
        var m :| m in tracked && m.tag == tag && m.id == id;
        FilterMember(msgs, Unskipped(n, states), m);
        assert IsTracked()(m);
      }
    }
  }

  /** A failed batch disarms its tags; what the others counted is still there. */
  lemma RejectedPresent(tags: map<Id, Tag>, n: Node, states: States, msgs: seq<Message>, world: nat -> Env,
                        less: States, gone: Tag -> set<Id>, later: Tag -> set<Id>)
    requires SeenPresent(states, n, gone) && Tagged(tags, n) && forall m :: m in msgs ==> TaggedMessage(tags, m)
    requires forall tag :: tag in less ==> tag in states && less[tag] == states[tag]
    requires GoneWith(gone, msgs, later)
    ensures SeenPresent(less, ApplyUntil(n, Applies(n, states, msgs), world, 0).0, later)
  {
    AppliesMessages(tags, n, states, msgs);
    ApplyPresent(tags, n, Applies(n, states, msgs), world, 0);
    forall tag, id | tag in less && id in less[tag].seen
      ensures Present(ApplyUntil(n, Applies(n, states, msgs), world, 0).0, tag, id) || id in later(tag)
    {
      assert Present(n, tag, id) || id in gone(tag);
      assert gone(tag) + DeletedIds(msgs) <= later(tag);
    }
  }

  lemma PrunedPresent(states: States, n: Node, n': Node, released: KeepSets, gone: Tag -> set<Id>)
    requires SeenPresent(states, n, gone) && OnlyPruned(n, n', released)
    requires forall tag :: tag in released ==> tag in states && released[tag] == states[tag].seen
    ensures SeenPresent(states, n', gone)
  {
    forall tag, id | tag in states && id in states[tag].seen ensures Present(n', tag, id) || id in gone(tag) {
      assert Present(n, tag, id) || id in gone(tag);
    }
  }

  // ---- Runs ----

  datatype SyncEvent =
    | Batch(msgs: seq<Message>, world: nat -> Env)
    | Arm(tag: Tag)
    | Cancel(tag: Tag)
    | Finish(tag: Tag, expected: nat, world: nat -> Env)

  /** The node after an event, with what the event released, the deletes it
      handled and the tags it pruned of all that is not listed. */
  datatype Moment = Moment(n: Node, states: States, released: KeepSets, deletes: seq<Message>, pruned: set<Tag>)

  ghost predicate Next(a: Moment, e: SyncEvent, b: Moment)
  {
    match e
    case Batch(msgs, world) =>
      BatchOutcome(a.n, a.states, msgs, world, ApplyUntil(a.n, Applies(a.n, a.states, msgs), world, 0).1,
                   b.n, b.states, b.released, b.deletes, b.pruned)
    case Arm(tag) => b == Moment(a.n, Step(a.states, Event.Arm(tag)).0, map[], [], {})
    case Cancel(tag) => b == Moment(a.n, Step(a.states, Event.Cancel(tag)).0, map[], [], {})
    case Finish(tag, expected, world) =>
      && (b.states, b.released) == Step(a.states, Event.Finish(tag, expected))
      && Prunes(a.n, b.n, b.released, b.deletes, Answers(world, 0, |b.deletes|), b.pruned)
  }

  /** The node when the event's prune begins, and the answers to its deletes. */
  function BeforePrune(a: Moment, e: SyncEvent): Node
  {
    if e.Batch? then ApplyUntil(a.n, Applies(a.n, a.states, e.msgs), e.world, 0).0 else a.n
  }

  function PruneAnswers(a: Moment, e: SyncEvent, count: nat): (envs: seq<Env>)
    ensures |envs| == count
  {
    match e
    case Batch(msgs, world) => Answers(world, ApplyUntil(a.n, Applies(a.n, a.states, msgs), world, 0).2, count)
    case Finish(_, _, world) => Answers(world, 0, count)
    case _ => seq(count, _ => Env(true, Done))
  }

  lemma NoPrune(n: Node)
    ensures Prunes(n, n, map[], [], [], {})
  {
    assert StaleIds(n, map[]) == {} == IdsOf([]);
    assert FullyPruned(n, map[], [], []) == {};
  }

  /** Every event ends in a prune of what it released; arms, cancels and failed
      batches release nothing. */
  lemma NextPrunes(a: Moment, e: SyncEvent, b: Moment)
    requires Next(a, e, b)
    ensures Prunes(BeforePrune(a, e), b.n, b.released, b.deletes, PruneAnswers(a, e, |b.deletes|), b.pruned)
  {
    NoPrune(BeforePrune(a, e));
  }

  /** Over every event, an unlisted connection of a released tag goes if and
      only if the guards of its delete hold and its call is answered, and
      nothing else goes by the prune. */
  lemma UnlistedGoesIff(a: Moment, e: SyncEvent, b: Moment, id: Id) returns (i: nat)
    requires Next(a, e, b) && id in StaleIds(BeforePrune(a, e), b.released)
    ensures i < |b.deletes| && b.deletes[i].id == id
    ensures id !in b.n.mem <==> Removable(BeforePrune(a, e), id) && PruneAnswers(a, e, |b.deletes|)[i].call == Done
    ensures OnlyPruned(BeforePrune(a, e), b.n, b.released)
  {
    NextPrunes(a, e, b);
    PruneMeaning(BeforePrune(a, e), b.released, b.deletes, PruneAnswers(a, e, |b.deletes|));
    assert id in IdsOf(b.deletes);
    i :| 0 <= i < |b.deletes| && b.deletes[i].id == id;
  }

  ghost predicate IsRun(ms: seq<Moment>, es: seq<SyncEvent>)
  {
    |ms| == |es| + 1 && forall k :: 0 <= k < |es| ==> Next(ms[k], es[k], ms[k + 1])
  }

  /** The ids of delete messages since the tag was last armed. */
  function GoneFor(es: seq<SyncEvent>, tag: Tag): set<Id>
  {
    if es == [] then {} else
      var before, e := GoneFor(es[..|es| - 1], tag), es[|es| - 1];
      match e
      case Batch(msgs, _) => before + DeletedIds(msgs)
      case Arm(t) => if t == tag then {} else before
      case _ => before
  }

  function Gone(es: seq<SyncEvent>): Tag -> set<Id> { (tag: Tag) => GoneFor(es, tag) }

  ghost predicate AllTagged(tags: map<Id, Tag>, es: seq<SyncEvent>)
  {
    forall k :: 0 <= k < |es| && es[k].Batch? ==> forall m :: m in es[k].msgs ==> TaggedMessage(tags, m)
  }

  /** What holds at a moment: counted ids are there, released ids are there,
      and a released tag has nothing else exactly if it is pruned. */
  ghost predicate Synced(tags: map<Id, Tag>, b: Moment, gone: Tag -> set<Id>)
  {
    && Tagged(tags, b.n) && SeenPresent(b.states, b.n, gone) && b.pruned <= b.released.Keys
    && (forall tag, id :: tag in b.released && id in b.released[tag] ==> Present(b.n, tag, id) || id in gone(tag))
    && (forall tag :: tag in b.released ==> (tag in b.pruned <==> NothingElse(b.n, tag, b.released[tag])))
  }

  lemma PrunedSynced(tags: map<Id, Tag>, states: States, mid: Node, b: Moment, envs: seq<Env>, gone: Tag -> set<Id>)
    requires Tagged(tags, mid) && SeenPresent(states, mid, gone)
    requires Prunes(mid, b.n, b.released, b.deletes, envs, b.pruned)
    requires forall tag :: tag in b.released ==> tag in states && b.released[tag] == states[tag].seen
    requires forall tag :: tag in b.states ==> tag in states && b.states[tag].seen == states[tag].seen
    ensures Synced(tags, b, gone)
  {
    PruneMeaning(mid, b.released, b.deletes, envs);
    PrunedPresent(states, mid, b.n, b.released, gone);
    forall tag | tag in b.released ensures tag in b.pruned <==> NothingElse(b.n, tag, b.released[tag]) {
      FullyPrunedIff(mid, b.released, b.deletes, envs, tag);
    }
  }

  lemma BatchSynced(tags: map<Id, Tag>, a: Moment, msgs: seq<Message>, world: nat -> Env, b: Moment,
                    gone: Tag -> set<Id>, later: Tag -> set<Id>)
    requires Tagged(tags, a.n) && SeenPresent(a.states, a.n, gone) && Next(a, Batch(msgs, world), b)
    requires (forall m :: m in msgs ==> TaggedMessage(tags, m)) && GoneWith(gone, msgs, later)
    ensures Synced(tags, b, later)
  {
    var (mid, r, _) := ApplyUntil(a.n, Applies(a.n, a.states, msgs), world, 0);
    AppliesMessages(tags, a.n, a.states, msgs);
    ApplyPresent(tags, a.n, Applies(a.n, a.states, msgs), world, 0);
    if r == Applied {
      BatchPresent(tags, a.n, a.states, msgs, world, gone, later);
      PrunedSynced(tags, RecordAll(a.states, Filter(msgs, IsTracked())), mid, b,
                   PruneAnswers(a, Batch(msgs, world), |b.deletes|), later);
    } else {
      RejectedPresent(tags, a.n, a.states, msgs, world, b.states, gone, later);
    }
  }

  lemma NextSynced(tags: map<Id, Tag>, a: Moment, e: SyncEvent, b: Moment, gone: Tag -> set<Id>, later: Tag -> set<Id>)
    requires Synced(tags, a, gone) && Next(a, e, b)
    requires e.Batch? ==> GoneWith(gone, e.msgs, later) && forall m :: m in e.msgs ==> TaggedMessage(tags, m)
    requires e.Arm? ==> forall tag :: tag != e.tag ==> later(tag) == gone(tag)
    requires e.Cancel? || e.Finish? ==> forall tag :: later(tag) == gone(tag)
    ensures Synced(tags, b, later)
  {
    match e
    case Batch(msgs, world) => BatchSynced(tags, a, msgs, world, b, gone, later);
    case Finish(_, _, _) => PrunedSynced(tags, a.states, a.n, b, PruneAnswers(a, e, |b.deletes|), later);
    case _ =>
  }

  /** After every event of every run, failed batches and deletes included: the
      ids counted by an open sync and the released ids are in memory, but for
      those deleted since the arm; and of a released tag nothing else is left
      if and only if none of the prune's deletes is refused. */
  lemma {:induction false} SyncedTagIsList(tags: map<Id, Tag>, ms: seq<Moment>, es: seq<SyncEvent>)
    requires IsRun(ms, es) && AllTagged(tags, es) && Synced(tags, ms[0], Gone([]))
    ensures Synced(tags, ms[|es|], Gone(es))
  {
    if es != [] {
      var k := |es| - 1;
      var before, e, a, b := es[..k], es[k], ms[k], ms[k + 1];
      forall i | 0 <= i < k ensures Next(ms[..k + 1][i], before[i], ms[..k + 1][i + 1]) {}
      SyncedTagIsList(tags, ms[..k + 1], before);
      NextSynced(tags, a, e, b, Gone(before), Gone(es));
    }
  }

  /** Of the ids not deleted since the arm, a pruned tag has exactly the list. */
  lemma PrunedTagIsList(tags: map<Id, Tag>, ms: seq<Moment>, es: seq<SyncEvent>, tag: Tag, id: Id)
    requires IsRun(ms, es) && AllTagged(tags, es) && Synced(tags, ms[0], Gone([]))
    requires tag in ms[|es|].pruned && id !in GoneFor(es, tag)
    ensures Present(ms[|es|].n, tag, id) <==> tag in ms[|es|].released && id in ms[|es|].released[tag]
  {
    SyncedTagIsList(tags, ms, es);
    assert id !in Gone(es)(tag);
  }

  /** If everything unlisted can be removed when the prune begins and every
      call of it is answered, each released tag is left with its list. */
  lemma AnsweredSyncIsList(tags: map<Id, Tag>, ms: seq<Moment>, es: seq<SyncEvent>, tag: Tag, id: Id)
    requires IsRun(ms, es) && AllTagged(tags, es) && Synced(tags, ms[0], Gone([])) && es != []
    requires var k := |es| - 1;
             var mid, b := BeforePrune(ms[k], es[k]), ms[k + 1];
             && tag in b.released && id !in GoneFor(es, tag)
             && (forall x :: x in StaleIds(mid, b.released) ==> Removable(mid, x))
             && forall env :: env in PruneAnswers(ms[k], es[k], |b.deletes|) ==> env.call == Done
    ensures Present(ms[|es|].n, tag, id) <==> id in ms[|es|].released[tag]
  {
    var k := |es| - 1;
    assert Next(ms[k], es[k], ms[k + 1]);
    NextPrunes(ms[k], es[k], ms[k + 1]);
    AnsweredPruneIsFull(BeforePrune(ms[k], es[k]), ms[k + 1].released, ms[k + 1].deletes,
                        PruneAnswers(ms[k], es[k], |ms[k + 1].deletes|));
    PrunedTagIsList(tags, ms, es, tag, id);
  }

  // ---- Ownership over runs ----

  ghost predicate SafeAt(a: Moment, e: SyncEvent)
  {
    e.Batch? ==> SafeRun(a.n, Applies(a.n, a.states, e.msgs), e.world, 0)
  }

  ghost predicate OwnedAt(a: Moment, e: SyncEvent)
  {
    e.Batch? ==> OwnedRun(a.n, Applies(a.n, a.states, e.msgs), e.world, 0)
  }

  lemma SafeStepOwned(a: Moment, e: SyncEvent, b: Moment)
    requires AllPeersOwned(a.n) && Next(a, e, b)
    ensures OwnedAt(a, e) <==> SafeAt(a, e)
    ensures SafeAt(a, e) ==> AllPeersOwned(b.n)
  {
    if e.Batch? {
      BatchOwnedIff(a.n, Applies(a.n, a.states, e.msgs), e.world, 0);
    }
    if SafeAt(a, e) {
      NextPrunes(a, e, b);
      DeletesKeepOwners(BeforePrune(a, e), b.deletes, PruneAnswers(a, e, |b.deletes|));
    }
  }

  lemma {:induction false} SafePrefixOwned(ms: seq<Moment>, es: seq<SyncEvent>, k: nat)
    requires IsRun(ms, es) && AllPeersOwned(ms[0].n) && k <= |es|
    requires forall i :: 0 <= i < k ==> SafeAt(ms[i], es[i])
    ensures AllPeersOwned(ms[k].n)
  {
    if k > 0 {
      SafePrefixOwned(ms, es, k - 1);
      assert Next(ms[k - 1], es[k - 1], ms[k - 1 + 1]) && SafeAt(ms[k - 1], es[k - 1]);
      SafeStepOwned(ms[k - 1], es[k - 1], ms[k]);
    }
  }

  /** Over a whole run peers are owned at every step of every batch exactly if
      every message reached is safe; prunes never cost an owner. */
  lemma RunOwnedIff(ms: seq<Moment>, es: seq<SyncEvent>)
    requires IsRun(ms, es) && AllPeersOwned(ms[0].n)
    ensures (forall k :: 0 <= k < |es| ==> OwnedAt(ms[k], es[k])) <==> (forall k :: 0 <= k < |es| ==> SafeAt(ms[k], es[k]))
    ensures (forall k :: 0 <= k < |es| ==> SafeAt(ms[k], es[k])) ==> forall k :: 0 <= k <= |es| ==> AllPeersOwned(ms[k].n)
  {
    if forall k :: 0 <= k < |es| ==> SafeAt(ms[k], es[k]) {
      forall k | 0 <= k <= |es| ensures AllPeersOwned(ms[k].n) {
        SafePrefixOwned(ms, es, k);
      }
    }
    forall k | 0 <= k < |es| && AllPeersOwned(ms[k].n) ensures OwnedAt(ms[k], es[k]) <==> SafeAt(ms[k], es[k]) {
      assert Next(ms[k], es[k], ms[k + 1]);
      SafeStepOwned(ms[k], es[k], ms[k + 1]);
    }
    forall k | 0 <= k < |es| && OwnedAt(ms[k], es[k]) ensures SafeAt(ms[k], es[k]) {
      assert es[k].Batch? ==> AllPeersOwned(ms[k].n);
    }
  }

  lemma BookedStep(book: map<Id, Conn>, a: Moment, e: SyncEvent, b: Moment)
    requires AllPeersOwned(a.n) && Agrees(book, a.n) && Next(a, e, b)
    requires e.Batch? ==> forall m :: m in e.msgs ==> InBook(book, m)
    ensures SafeAt(a, e) && Agrees(book, b.n)
  {
    if e.Batch? {
      FilterMembers(e.msgs, Unskipped(a.n, a.states));
      BookedRunSafe(book, a.n, Applies(a.n, a.states, e.msgs), e.world, 0);
    }
    NextPrunes(a, e, b);
    PruneMeaning(BeforePrune(a, e), b.released, b.deletes, PruneAnswers(a, e, |b.deletes|));
  }

  /** A run whose messages keep to the books never leaves a peer without an
      owner. */
  lemma {:induction false} BookedRunOwned(book: map<Id, Conn>, ms: seq<Moment>, es: seq<SyncEvent>, k: nat)
    requires IsRun(ms, es) && AllPeersOwned(ms[0].n) && Agrees(book, ms[0].n) && k <= |es|
    requires forall i :: 0 <= i < |es| && es[i].Batch? ==> forall m :: m in es[i].msgs ==> InBook(book, m)
    ensures AllPeersOwned(ms[k].n) && Agrees(book, ms[k].n)
  {
    if k > 0 {
      BookedRunOwned(book, ms, es, k - 1);
      assert Next(ms[k - 1], es[k - 1], ms[k - 1 + 1]);
      BookedStep(book, ms[k - 1], es[k - 1], ms[k]);
      SafeStepOwned(ms[k - 1], es[k - 1], ms[k]);
    }
  }

  function TagsIn(book: map<Id, Conn>): map<Id, Tag>
  {
    map id | id in book :: book[id].tag
  }

  /** So after every event of such a run the peers on the interface of a pruned
      tag are those of listed connections. */
  lemma PrunedPeersAreListed(book: map<Id, Conn>, ms: seq<Moment>, es: seq<SyncEvent>, tag: Tag, k: PubKey)
    returns (id: Id)
    requires IsRun(ms, es) && AllPeersOwned(ms[0].n) && Agrees(book, ms[0].n)
    requires Synced(TagsIn(book), ms[0], Gone([]))
    requires forall i :: 0 <= i < |es| && es[i].Batch? ==> forall m :: m in es[i].msgs ==> InBook(book, m)
    requires tag in ms[|es|].pruned && tag in ms[|es|].n.ifaces && k in ms[|es|].n.ifaces[tag]
    ensures Owns(ms[|es|].n, id, tag, k) && tag in ms[|es|].released && id in ms[|es|].released[tag]
  {
    BookedRunOwned(book, ms, es, |es|);
    SyncedTagIsList(TagsIn(book), ms, es);
    id :| Owns(ms[|es|].n, id, tag, k);
    assert NothingElse(ms[|es|].n, tag, ms[|es|].released[tag]);
  }
}
