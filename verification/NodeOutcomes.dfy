/**
 What a node reports for each message and for a batch, and what a reported
 success means for memory and the interfaces.
 */
module NodeOutcomes {
  import opened Collections
  import opened FullSync
  import opened NodePeers

  // ---- One message ----

  /** A create or update succeeds: under a peer tag the interface is up and
      either the key is new to it, as far as it can be read, and the call is
      answered, or the key does not decode and the tag is Wireguard, which then
      installs nothing; under an Xray tag the client is there and answers. */
  predicate CreateSucceeds(n: Node, msg: Message, env: Env)
  {
    if IsPeerTag(msg.tag) then
      && msg.wg.Some? && msg.tag in n.ifaces
      && match msg.wg.value.key
         case None => msg.tag == Wireguard
         case Some(k) =>
           && env.call == Done && (env.readOk ==> k !in n.ifaces[msg.tag])
           && (msg.tag == AmneziaWg || msg.tag == AmneziaWgMobile ==> env.readOk)
    else IsXray(msg.tag) && n.xray && env.call == Done && (msg.tag == Shadowsocks ==> msg.password.Some?)
  }

  /** A delete succeeds, whether or not memory knows the connection. */
  predicate DeleteSucceeds(n: Node, msg: Message, env: Env)
  {
    && env.call == Done
    && if IsPeerTag(msg.tag) then msg.tag in n.ifaces && msg.wg.Some? && msg.wg.value.key.Some?
       else IsXray(msg.tag) && n.xray
  }

  predicate Succeeds(n: Node, msg: Message, env: Env)
  {
    match msg.action
    case ResetStat => env.call == Done
    case Delete => DeleteSucceeds(n, msg, env)
    case _ => CreateSucceeds(n, msg, env)
  }

  /** A message is reported applied if and only if its guards hold. */
  lemma AppliedIff(n: Node, msg: Message, env: Env)
    ensures Handle(n, msg, env).1 == Applied <==> Succeeds(n, msg, env)
  {
    assert IsPeerTag(msg.tag) ==> !IsXray(msg.tag);
  }

  /** What a successful create or update leaves: the connection is in memory,
      under its first tag and key if it was known, and a decodable key is on its
      interface; and every peer that was there still is. */
  lemma CreatedMeaning(n: Node, msg: Message, env: Env)
    requires (msg.action == Create || msg.action == Update) && Succeeds(n, msg, env)
    ensures var n' := Handle(n, msg, env).0;
            && msg.id in n'.mem
            && n'.mem[msg.id] == (if msg.id in n.mem then n.mem[msg.id]
                                  else Conn(msg.tag, if IsPeerTag(msg.tag) then msg.wg else None))
            && (IsPeerTag(msg.tag) && msg.wg.value.key.Some? ==>
                  msg.tag in n'.ifaces && msg.wg.value.key.value in n'.ifaces[msg.tag])
  {
    assert IsPeerTag(msg.tag) ==> !IsXray(msg.tag);
  }

  /** A create writes memory before it touches the interface, so under a peer
      tag the connection stays in memory whatever fails after; under an Xray tag
      it is written only on success. */
  lemma CreatedInMemoryIff(n: Node, msg: Message, env: Env)
    requires msg.action == Create || msg.action == Update
    ensures msg.id in Handle(n, msg, env).0.mem <==>
            || msg.id in n.mem
            || (if IsPeerTag(msg.tag) then msg.wg.Some? else Succeeds(n, msg, env))
  {
    assert IsPeerTag(msg.tag) ==> !IsXray(msg.tag);
  }

  /** A delete takes its key off its interface unless the call fails before
      taking effect, and nothing else, whether or not the answer is lost. */
  lemma PeersAfterDelete(n: Node, msg: Message, env: Env, tag: Tag, k: PubKey)
    requires msg.action == Delete && tag in n.ifaces
    ensures var n' := Handle(n, msg, env).0;
            tag in n'.ifaces &&
            (k in n'.ifaces[tag] <==>
             k in n.ifaces[tag] &&
             !(IsPeerTag(tag) && msg.tag == tag && msg.wg == Some(Wg(Some(k))) && env.call != Failed))
  {
    assert IsPeerTag(msg.tag) ==> !IsXray(msg.tag);
  }

  // ---- Batches ----

  /** Every message that is reached succeeds when its turn comes. */
  ghost predicate AllSucceed(n: Node, msgs: seq<Message>, world: nat -> Env, from: nat)
    decreases |msgs|
  {
    msgs != [] ==>
      Succeeds(n, msgs[0], world(from)) && AllSucceed(Handle(n, msgs[0], world(from)).0, msgs[1..], world, from + 1)
  }

  /** A run of messages is reported applied if and only if each of them
      succeeds, and then each has taken one call. */
  lemma {:induction false} BatchAppliedIff(n: Node, msgs: seq<Message>, world: nat -> Env, from: nat)
    ensures ApplyUntil(n, msgs, world, from).1 == Applied <==> AllSucceed(n, msgs, world, from)
    ensures ApplyUntil(n, msgs, world, from).1 == Applied ==> ApplyUntil(n, msgs, world, from).2 == from + |msgs|
    decreases |msgs|
  {
    if msgs != [] {
      AppliedIff(n, msgs[0], world(from));
      BatchAppliedIff(Handle(n, msgs[0], world(from)).0, msgs[1..], world, from + 1);
    }
  }

  /** The messages' deletes leave the peer and the connection alone. */
  ghost predicate Spares(msgs: seq<Message>, tag: Tag, k: PubKey, id: Id)
  {
    forall m :: m in msgs && m.action == Delete ==> m.id != id && !(m.tag == tag && m.wg == Some(Wg(Some(k))))
  }

  /** A peer stays on its interface, and a connection in memory, until a delete
      names them. */
  lemma HandleKeeps(n: Node, msg: Message, env: Env, tag: Tag, k: PubKey, id: Id)
    requires msg.action == Delete ==> msg.id != id && !(msg.tag == tag && msg.wg == Some(Wg(Some(k))))
    ensures var n' := Handle(n, msg, env).0;
            && (tag in n.ifaces && k in n.ifaces[tag] ==> tag in n'.ifaces && k in n'.ifaces[tag])
            && (id in n.mem ==> id in n'.mem)
  {
    if msg.action == Delete {
      DeleteEffect(n, msg, env);
    } else if msg.action != ResetStat {
      CreateMemory(n, msg, env);
      CreateEffect(n, msg, env);
    }
  }

  lemma {:induction false} ApplyKeeps(n: Node, msgs: seq<Message>, world: nat -> Env, from: nat,
                                      tag: Tag, k: PubKey, id: Id)
    requires Spares(msgs, tag, k, id)
    ensures var n' := ApplyUntil(n, msgs, world, from).0;
            && (tag in n.ifaces && k in n.ifaces[tag] ==> tag in n'.ifaces && k in n'.ifaces[tag])
            && (id in n.mem ==> id in n'.mem)
    decreases |msgs|
  {
    if msgs != [] {
      assert msgs[0] in msgs && forall m :: m in msgs[1..] ==> m in msgs;
      HandleKeeps(n, msgs[0], world(from), tag, k, id);
      ApplyKeeps(Handle(n, msgs[0], world(from)).0, msgs[1..], world, from + 1, tag, k, id);
    }
  }

  /** After an applied run of messages every created or updated connection is in
      memory and its decodable key on its interface, unless a later message of
      the run deletes them. */
  lemma {:induction false} AppliedInstalls(n: Node, msgs: seq<Message>, world: nat -> Env, from: nat, i: nat, k: PubKey)
    requires ApplyUntil(n, msgs, world, from).1 == Applied && i < |msgs|
    requires msgs[i].action == Create || msgs[i].action == Update
    requires Spares(msgs[i + 1..], msgs[i].tag, k, msgs[i].id)
    ensures var n', m := ApplyUntil(n, msgs, world, from).0, msgs[i];
            && m.id in n'.mem
            && (IsPeerTag(m.tag) && m.wg == Some(Wg(Some(k))) ==> m.tag in n'.ifaces && k in n'.ifaces[m.tag])
    decreases |msgs|
  {
    var n1 := Handle(n, msgs[0], world(from)).0;
    AppliedIff(n, msgs[0], world(from));
    if i == 0 {
      CreatedMeaning(n, msgs[0], world(from));
      ApplyKeeps(n1, msgs[1..], world, from + 1, msgs[0].tag, k, msgs[0].id);
    } else {
      assert msgs[1..][i - 1] == msgs[i] && msgs[1..][i..] == msgs[i + 1..];
      AppliedInstalls(n1, msgs[1..], world, from + 1, i - 1, k);
    }
  }

  // ---- What a full sync skips ----

  /** A create of what memory holds under an armed tag, which is only counted. */
  predicate Relisted(n: Node, states: States, m: Message)
  {
    m.action == Create && m.tag in states && m.id in n.mem && n.mem[m.id].tag == m.tag
  }

  /** Listing again what is there succeeds without a call and changes nothing. */
  lemma RelistingApplies(n: Node, states: States, msgs: seq<Message>, world: nat -> Env)
    requires forall m :: m in msgs ==> Relisted(n, states, m)
    ensures ApplyUntil(n, Filter(msgs, Unskipped(n, states)), world, 0) == (n, Applied, 0)
  {
    FilterNone(msgs, Unskipped(n, states));
  }

  /** Every other message of a batch is applied, in order. */
  lemma AllOthersApplied(n: Node, states: States, msgs: seq<Message>) returns (at: seq<nat>)
    ensures var apply := Filter(msgs, Unskipped(n, states));
            |at| == |apply| && forall i :: 0 <= i < |at| ==> at[i] < |msgs| && apply[i] == msgs[at[i]]
    ensures forall i, j :: 0 <= i < j < |at| ==> at[i] < at[j]
    ensures forall k :: 0 <= k < |msgs| ==> (k in at <==> !Relisted(n, states, msgs[k]))
  {
    at := FilterPositions(msgs, Unskipped(n, states));
  }

  /** The creates and updates of a tag, skipped or not, are what a batch counts
      for an open sync, and their tags are what a failed batch disarms. */
  lemma BatchCounts(states: States, msgs: seq<Message>, tag: Tag, id: Id)
    ensures var counted := RecordAll(states, Filter(msgs, IsTracked()));
            && (tag in counted <==> tag in states)
            && (tag in states ==>
                  && counted[tag].expected == states[tag].expected
                  && (id in counted[tag].seen <==>
                      id in states[tag].seen ||
                      exists m :: m in msgs && (m.action == Create || m.action == Update) && m.tag == tag && m.id == id))
    ensures tag in TagsOf(Filter(msgs, IsTracked())) <==>
            exists m :: m in msgs && (m.action == Create || m.action == Update) && m.tag == tag
  {
    var tracked := Filter(msgs, IsTracked());
    FilterMembers(msgs, IsTracked());
    RecordedIff(states, tracked, tag, id);
    if tag in TagsOf(tracked) {
      var i :| 0 <= i < |tracked| && tracked[i].tag == tag;
      assert tracked[i] in msgs;
    }
    if exists m :: m in msgs && (m.action == Create || m.action == Update) && m.tag == tag {
      var m :| m in msgs && (m.action == Create || m.action == Update) && m.tag == tag;
      var i :| 0 <= i < |tracked| && tracked[i] == m;
    }
  }

  lemma {:induction false} RecordedIff(states: States, msgs: seq<Message>, tag: Tag, id: Id)
    ensures var counted := RecordAll(states, msgs);
            && (tag in counted <==> tag in states)
            && (tag in states ==>
                  && counted[tag].expected == states[tag].expected
                  && (id in counted[tag].seen <==>
                      id in states[tag].seen || exists m :: m in msgs && m.tag == tag && m.id == id))
  {
    if msgs != [] {
      var init, m := msgs[..|msgs| - 1], msgs[|msgs| - 1];
      RecordedIff(states, init, tag, id);
      assert msgs == init + [m];
      assert m in msgs;
    }
  }

  /** So after an applied batch every connection it creates or updates is in
      memory, and its decodable key is on its interface unless it was only
      listed again, but for what a later message of the batch deletes. */
  lemma BatchInstalls(n: Node, states: States, msgs: seq<Message>, world: nat -> Env, i: nat, k: PubKey)
    requires ApplyUntil(n, Filter(msgs, Unskipped(n, states)), world, 0).1 == Applied && i < |msgs|
    requires msgs[i].action == Create || msgs[i].action == Update
    requires forall j :: (if Relisted(n, states, msgs[i]) then 0 else i + 1) <= j < |msgs| && msgs[j].action == Delete ==>
               msgs[j].id != msgs[i].id && !(msgs[j].tag == msgs[i].tag && msgs[j].wg == Some(Wg(Some(k))))
    ensures var n', m := ApplyUntil(n, Filter(msgs, Unskipped(n, states)), world, 0).0, msgs[i];
            && m.id in n'.mem
            && (!Relisted(n, states, m) && IsPeerTag(m.tag) && m.wg == Some(Wg(Some(k))) ==>
                  m.tag in n'.ifaces && k in n'.ifaces[m.tag])
  {
    var apply := Filter(msgs, Unskipped(n, states));
    var at := AllOthersApplied(n, states, msgs);
    if Relisted(n, states, msgs[i]) {
      assert Spares(apply, msgs[i].tag, k, msgs[i].id);
      ApplyKeeps(n, apply, world, 0, msgs[i].tag, k, msgs[i].id);
    } else {
      assert i in at;
      var p :| 0 <= p < |at| && at[p] == i;
      LaterSpares(msgs, apply, at, p, k);
      AppliedInstalls(n, apply, world, 0, p, k);
    }
  }

  lemma LaterSpares(msgs: seq<Message>, apply: seq<Message>, at: seq<nat>, p: nat, k: PubKey)
    requires |at| == |apply| && p < |at| && (forall i, j :: 0 <= i < j < |at| ==> at[i] < at[j])
    requires forall i :: 0 <= i < |at| ==> at[i] < |msgs| && apply[i] == msgs[at[i]]
    requires forall j :: at[p] + 1 <= j < |msgs| && msgs[j].action == Delete ==>
               msgs[j].id != apply[p].id && !(msgs[j].tag == apply[p].tag && msgs[j].wg == Some(Wg(Some(k))))
    ensures Spares(apply[p + 1..], apply[p].tag, k, apply[p].id)
  {
    forall m | m in apply[p + 1..] && m.action == Delete
      ensures m.id != apply[p].id && !(m.tag == apply[p].tag && m.wg == Some(Wg(Some(k))))
    {
      var q :| 0 <= q < |apply[p + 1..]| && apply[p + 1..][q] == m;
      assert apply[p + 1 + q] == m && at[p] < at[p + 1 + q];
    }
  }
}
