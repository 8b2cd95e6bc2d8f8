/** Full-sync bookkeeping: when a node may drop what the api did not list. */
module FullSync {
  import opened Collections

  datatype Tag =
    | VlessTcpReality | VlessGrpcReality | VlessXhttpReality | VlessXhttpCdn | Vmess
    | Shadowsocks | Wireguard | AmneziaWg | Hysteria2 | Mtproto | AmneziaWgMobile

  type Id = nat

  datatype SyncState = SyncState(seen: set<Id>, expected: Option<nat>)
  type States = map<Tag, SyncState>
  type KeepSets = map<Tag, set<Id>>

  predicate Ready(s: SyncState)
  {
    s.expected.Some? && |s.seen| >= s.expected.value
  }

  datatype Event =
    | Arm(tag: Tag)
    | Cancel(tag: Tag)
    | Record(tag: Tag, id: Id)
    | Finish(tag: Tag, expected: nat)
    | TakeReady

  /** The states after an event, and the keep-sets it releases. */
  function Step(states: States, e: Event): (r: (States, KeepSets))
  {
    match e
    case Arm(tag) => (states[tag := SyncState({}, None)], map[])
    case Cancel(tag) => (states - {tag}, map[])
    case Record(tag, id) =>
      if tag in states then (states[tag := states[tag].(seen := states[tag].seen + {id})], map[])
      else (states, map[])
    case Finish(tag, n) =>
      if tag !in states then (states, map[])
      else if |states[tag].seen| >= n then (states - {tag}, map[tag := states[tag].seen])
      else (states[tag := states[tag].(expected := Some(n))], map[])
    case TakeReady =>
      (map t | t in states && !Ready(states[t]) :: states[t],
       map t | t in states && Ready(states[t]) :: states[t].seen)
  }

  class FullSyncTracker {
    var states: States

    constructor ()
      ensures states == map[]
    {
      states := map[];
    }

    method Arm(tag: Tag)
      modifies this
      ensures states == Step(old(states), Event.Arm(tag)).0
    {
      states := states[tag := SyncState({}, None)];
    }

    method Cancel(tag: Tag)
      modifies this
      ensures states == Step(old(states), Event.Cancel(tag)).0
    {
      states := states - {tag};
    }

    method Record(tag: Tag, id: Id)
      modifies this
      ensures states == Step(old(states), Event.Record(tag, id)).0
    {
      if tag in states {
        states := states[tag := states[tag].(seen := states[tag].seen + {id})];
      }
    }

    method Finish(tag: Tag, expected: nat) returns (keep: Option<set<Id>>)
      modifies this
      ensures states == Step(old(states), Event.Finish(tag, expected)).0
      ensures var released := Step(old(states), Event.Finish(tag, expected)).1;
              if keep.Some? then released == map[tag := keep.value] else released == map[]
    {
      if tag !in states {
        return None;
      }
      states := states[tag := states[tag].(expected := Some(expected))];
      if |states[tag].seen| >= expected {
        keep := Some(states[tag].seen);
        states := states - {tag};
        assert states == old(states) - {tag};
      } else {
        keep := None;
      }
    }

    /** Collect the ready tags, then remove each with its keep-set. */
    method TakeReady() returns (ready: KeepSets)
      modifies this
      ensures (states, ready) == Step(old(states), Event.TakeReady)
    {
      ready := map[];
      var tags := set t | t in states && Ready(states[t]);
      var todo := tags;
      while todo != {}
        invariant todo <= tags
        invariant states == map t | t in old(states) && t !in tags - todo :: old(states)[t]
        invariant ready == map t | t in tags - todo :: old(states)[t].seen
        decreases todo
      {
        var t :| t in todo;
        ready := ready[t := states[t].seen];
        states := states - {t};
        todo := todo - {t};
      }
      assert tags - todo == tags;
      assert states == Step(old(states), Event.TakeReady).0;
      assert ready == Step(old(states), Event.TakeReady).1;
    }
  }

  // ---- Runs ----

  function StatesAfter(es: seq<Event>): States
  {
    if es == [] then map[] else Step(StatesAfter(es[..|es| - 1]), es[|es| - 1]).0
  }

  /** The keep-sets released by the k-th event. */
  function ReleasedAt(es: seq<Event>, k: nat): KeepSets
    requires k < |es|
  {
    Step(StatesAfter(es[..k]), es[k]).1
  }

  /** The ids recorded for `tag` by these events. */
  function Recorded(es: seq<Event>, tag: Tag): set<Id>
  {
    if es == [] then {} else
      var init, e := es[..|es| - 1], es[|es| - 1];
      Recorded(init, tag) + if e.Record? && e.tag == tag then {e.id} else {}
  }

  /** The last count promised for `tag` by these events. */
  function Promised(es: seq<Event>, tag: Tag): Option<nat>
  {
    if es == [] then None else
      var init, e := es[..|es| - 1], es[|es| - 1];
      if e.Finish? && e.tag == tag then Some(e.expected) else Promised(init, tag)
  }

  /** A full sync of `tag` was armed by event `a` and has been open since. */
  ghost predicate OpenSince(es: seq<Event>, tag: Tag, a: nat)
  {
    && a < |es| && es[a] == Arm(tag)
    && forall i :: a < i < |es| ==> es[i] != Arm(tag) && es[i] != Cancel(tag) && tag !in ReleasedAt(es, i)
  }

  lemma ReleasedPrefix(es: seq<Event>, n: nat, i: nat)
    requires i < n <= |es|
    ensures ReleasedAt(es[..n], i) == ReleasedAt(es, i)
  {
    assert es[..n][..i] == es[..i];
  }

  lemma OpenExtends(es: seq<Event>, tag: Tag, a: nat)
    requires es != [] && OpenSince(es[..|es| - 1], tag, a)
    requires es[|es| - 1] != Arm(tag) && es[|es| - 1] != Cancel(tag) && tag !in ReleasedAt(es, |es| - 1)
    ensures OpenSince(es, tag, a)
  {
    forall i | a < i < |es| ensures es[i] != Arm(tag) && es[i] != Cancel(tag) && tag !in ReleasedAt(es, i) {
      if i < |es| - 1 {
        ReleasedPrefix(es, |es| - 1, i);
      }
    }
  }

  /** One event's effect on a tag that stays open. */
  lemma StepOnOpenTag(states: States, e: Event, tag: Tag)
    requires tag in Step(states, e).0 && e != Arm(tag)
    ensures tag in states && e != Cancel(tag) && tag !in Step(states, e).1
    ensures Step(states, e).0[tag] ==
            SyncState(states[tag].seen + (if e.Record? && e.tag == tag then {e.id} else {}),
                      if e.Finish? && e.tag == tag then Some(e.expected) else states[tag].expected)
  {
    assert states[tag].seen + {} == states[tag].seen;
  }

  ghost predicate StateSince(es: seq<Event>, tag: Tag, a: nat)
    requires a < |es|
  {
    tag in StatesAfter(es) &&
    StatesAfter(es)[tag] == SyncState(Recorded(es[a + 1..], tag), Promised(es[a + 1..], tag))
  }

  lemma HistoryExtends(es: seq<Event>, tag: Tag, a: nat)
    requires a < |es| - 1 && tag in StatesAfter(es) && es[|es| - 1] != Arm(tag)
    requires StateSince(es[..|es| - 1], tag, a)
    ensures StateSince(es, tag, a)
  {
    var init, e, since := es[..|es| - 1], es[|es| - 1], es[a + 1..];
    StepOnOpenTag(StatesAfter(init), e, tag);
    assert since[..|since| - 1] == init[a + 1..] && since[|since| - 1] == e;
  }

  /** The tracked state of a tag is what happened since it was last armed. */
  lemma {:induction false} StateIsHistory(es: seq<Event>, tag: Tag) returns (a: nat)
    requires tag in StatesAfter(es)
    ensures OpenSince(es, tag, a)
    ensures StateSince(es, tag, a)
  {
    var init, e := es[..|es| - 1], es[|es| - 1];
    if e == Arm(tag) {
      a := |es| - 1;
      assert es[a + 1..] == [];
    } else {
      StepOnOpenTag(StatesAfter(init), e, tag);
      a := StateIsHistory(init, tag);
      OpenExtends(es, tag, a);
      HistoryExtends(es, tag, a);
    }
  }

  /** A released keep-set belongs to one arm: nothing was released, cancelled or
      re-armed in between, it holds exactly the ids recorded since that arm,
      and a count promised since that arm has been reached. */
  lemma ReleaseMeaning(es: seq<Event>, k: nat, tag: Tag) returns (a: nat)
    requires k < |es| && tag in ReleasedAt(es, k)
    ensures a < k && OpenSince(es[..k], tag, a)
    ensures ReleasedAt(es, k)[tag] == Recorded(es[a + 1..k], tag)
    ensures Promised(es[a + 1..k + 1], tag).Some?
    ensures |ReleasedAt(es, k)[tag]| >= Promised(es[a + 1..k + 1], tag).value
  {
    a := StateIsHistory(es[..k], tag);
    assert es[..k][a + 1..] == es[a + 1..k];
    var upto := es[a + 1..k + 1];
    assert upto[..|upto| - 1] == es[a + 1..k] && upto[|upto| - 1] == es[k];
  }

  lemma StepKeepsTag(states: States, e: Event, tag: Tag)
    requires tag in states && e != Cancel(tag) && tag !in Step(states, e).1
    ensures tag in Step(states, e).0
  {
  }

  lemma OpenBefore(es: seq<Event>, tag: Tag, a: nat)
    requires OpenSince(es, tag, a) && a < |es| - 1
    ensures OpenSince(es[..|es| - 1], tag, a)
  {
    var init := es[..|es| - 1];
    forall i | a < i < |init| ensures init[i] != Arm(tag) && init[i] != Cancel(tag) && tag !in ReleasedAt(init, i) {
      ReleasedPrefix(es, |es| - 1, i);
    }
  }

  /** A tag that was armed, and not cancelled or released since, is tracked. */
  lemma {:induction false} OpenIsTracked(es: seq<Event>, tag: Tag, a: nat)
    requires OpenSince(es, tag, a)
    ensures tag in StatesAfter(es) && StateSince(es, tag, a)
  {
    var n := |es| - 1;
    if a < n {
      OpenBefore(es, tag, a);
      OpenIsTracked(es[..n], tag, a);
      StepKeepsTag(StatesAfter(es[..n]), es[n], tag);
      HistoryExtends(es, tag, a);
    } else {
      assert es[a + 1..] == [];
    }
  }

  /** The k-th event comes with the count reached since arm `a`: it promises a
      count no greater than the ids recorded, or asks for the syncs whose last
      promise is. */
  ghost predicate Reached(es: seq<Event>, k: nat, tag: Tag, a: nat)
    requires a < k < |es|
  {
    var ids, promise := Recorded(es[a + 1..k], tag), Promised(es[a + 1..k], tag);
    || (es[k].Finish? && es[k].tag == tag && |ids| >= es[k].expected)
    || (es[k].TakeReady? && promise.Some? && |ids| >= promise.value)
  }

  /** A tracked tag is released by exactly these events. */
  lemma StepReleases(states: States, e: Event, tag: Tag)
    ensures tag in Step(states, e).1 <==>
            && tag in states
            && (|| (e.Finish? && e.tag == tag && |states[tag].seen| >= e.expected)
                || (e.TakeReady? && states[tag].expected.Some? && |states[tag].seen| >= states[tag].expected.value))
  {
  }

  lemma ReachedIff(es: seq<Event>, k: nat, tag: Tag, a: nat)
    requires k < |es| && OpenSince(es[..k], tag, a)
    ensures a < k && (tag in ReleasedAt(es, k) <==> Reached(es, k, tag, a))
  {
    OpenIsTracked(es[..k], tag, a);
    assert es[..k][a + 1..] == es[a + 1..k];
    StepReleases(StatesAfter(es[..k]), es[k], tag);
  }

  /** A keep-set is released exactly when a full sync is open and its promised
      count reached. */
  lemma ReleaseIff(es: seq<Event>, k: nat, tag: Tag)
    requires k < |es|
    ensures tag in ReleasedAt(es, k) <==> exists a: nat :: OpenSince(es[..k], tag, a) && Reached(es, k, tag, a)
  {
    if tag in ReleasedAt(es, k) {
      StepReleases(StatesAfter(es[..k]), es[k], tag);
      var a := StateIsHistory(es[..k], tag);
      ReachedIff(es, k, tag, a);
    } else {
      forall a: nat | OpenSince(es[..k], tag, a) ensures !Reached(es, k, tag, a) {
        ReachedIff(es, k, tag, a);
      }
    }
  }

  /** Between two releases of a tag there is a new arm. */
  lemma OneReleasePerArm(es: seq<Event>, i: nat, j: nat, tag: Tag)
    requires i < j < |es| && tag in ReleasedAt(es, i) && tag in ReleasedAt(es, j)
    ensures exists a :: i < a < j && es[a] == Arm(tag)
  {
    var a := ReleaseMeaning(es, j, tag);
    assert es[..j][a] == Arm(tag);
    if a < i {
      ReleasedPrefix(es, j, i);
    }
    assert i < a < j;
  }

  lemma SubsetOfSameSize<T>(a: set<T>, b: set<T>)
    requires a <= b && |a| >= |b|
    ensures a == b
  {
    assert |b - a| == |b| - |a|;
  }

  /** A released keep-set is the api's list exactly when only listed ids were
      recorded since the arm, the promised count being the list's size. */
  lemma KeepIsListIff(es: seq<Event>, k: nat, tag: Tag, list: set<Id>) returns (a: nat)
    requires k < |es| && tag in ReleasedAt(es, k)
    ensures a < k && OpenSince(es[..k], tag, a)
    ensures Promised(es[a + 1..k + 1], tag) == Some(|list|) ==>
              (ReleasedAt(es, k)[tag] == list <==> Recorded(es[a + 1..k], tag) <= list)
  {
    a := ReleaseMeaning(es, k, tag);
    if Promised(es[a + 1..k + 1], tag) == Some(|list|) && Recorded(es[a + 1..k], tag) <= list {
      SubsetOfSameSize(ReleasedAt(es, k)[tag], list);
    }
  }

  /** A change message for an unlisted connection that arrives during the sync
      is counted as if it were listed: the sync of {1, 2} releases {1, 3}. */
  lemma StrayIdReleasesWrongSet()
    ensures var es := [Arm(Wireguard), Record(Wireguard, 1), Record(Wireguard, 3), Finish(Wireguard, |{1, 2}|)];
            ReleasedAt(es, 3) == map[Wireguard := {1, 3}]
  {
    var es := [Arm(Wireguard), Record(Wireguard, 1), Record(Wireguard, 3), Finish(Wireguard, |{1, 2}|)];
    assert es[..3][..2] == es[..2] && es[..2][..1] == es[..1] && es[..1][..0] == [];
    assert StatesAfter(es[..1]) == map[Wireguard := SyncState({}, None)];
    assert StatesAfter(es[..2]) == map[Wireguard := SyncState({1}, None)];
    assert {1} + {3} == {1, 3};
    assert StatesAfter(es[..3]) == map[Wireguard := SyncState({1, 3}, None)];
    assert |{1, 3}| == 2 && |{1, 2}| == 2;
  }
}
