/**
 Messages that create and delete connections on a node, and the prune that
 follows a full sync.  A kernel interface is the set of its peers' keys; each
 call on it may succeed, fail, or report failure after taking effect.
 */
module NodePeers {
  import opened Collections
  import opened FullSync

  type PubKey = string

  /** Key material of a message or connection; `key` is None when the private
      key does not decode. */
  datatype Wg = Wg(key: Option<PubKey>)
  datatype Conn = Conn(tag: Tag, wg: Option<Wg>)

  datatype Action = Create | Update | Delete | ResetStat
  datatype Message = Message(id: Id, action: Action, tag: Tag, wg: Option<Wg>, password: Option<string>)

  datatype Call = Done | Failed | FailedLate

  /** How the outside world answers one message: whether the interface could
      be read, and how the changing call (kernel or Xray) ended. */
  datatype Env = Env(readOk: bool, call: Call)

  /** `ifaces` holds the peers of each WireGuard-family interface that is up. */
  datatype Node = Node(mem: map<Id, Conn>, ifaces: map<Tag, set<PubKey>>, xray: bool)

  datatype Outcome = Applied | Rejected

  predicate IsAmnezia(tag: Tag) { tag == AmneziaWg || tag == AmneziaWgMobile }

  predicate IsPeerTag(tag: Tag) { tag == Wireguard || IsAmnezia(tag) }

  predicate IsXray(tag: Tag)
  {
    tag in {VlessTcpReality, VlessGrpcReality, VlessXhttpReality, VlessXhttpCdn, Vmess, Shadowsocks}
  }

  /** `Connections::add`: an id already present keeps its connection. */
  function AddConn(n: Node, id: Id, c: Conn): Node
  {
    if id in n.mem then n else n.(mem := n.mem[id := c])
  }

  function AddPeer(n: Node, tag: Tag, k: PubKey, call: Call): (Node, Outcome)
    requires tag in n.ifaces
  {
    var added := n.(ifaces := n.ifaces[tag := n.ifaces[tag] + {k}]);
    match call
    case Done => (added, Applied)
    case Failed => (n, Rejected)
    case FailedLate => (added, Rejected)
  }

  function CreatePeer(n: Node, msg: Message, env: Env): (Node, Outcome)
  {
    if msg.wg.None? then (n, Rejected)
    else
      var n1 := AddConn(n, msg.id, Conn(msg.tag, msg.wg));
      if msg.tag !in n1.ifaces then (n1, Rejected)
      else if msg.wg.value.key.None? then (n1, if IsAmnezia(msg.tag) then Rejected else Applied)
      else
        var k := msg.wg.value.key.value;
        if IsAmnezia(msg.tag) && !env.readOk then (n1, Rejected)
        else if env.readOk && k in n1.ifaces[msg.tag] then (n1, Rejected)
        else AddPeer(n1, msg.tag, k, env.call)
  }

  function CreateXray(n: Node, msg: Message, env: Env): (Node, Outcome)
  {
    if msg.tag == Shadowsocks && msg.password.None? then (n, Rejected)
    else if !n.xray || env.call != Done then (n, Rejected)
    else (AddConn(n, msg.id, Conn(msg.tag, None)), Applied)
  }

  /** The peer goes first; only then is the connection forgotten. */
  function DeletePeer(n: Node, msg: Message, env: Env): (Node, Outcome)
  {
    if msg.tag !in n.ifaces || msg.wg.None? || msg.wg.value.key.None? then (n, Rejected)
    else
      var k := msg.wg.value.key.value;
      var removed := n.(ifaces := n.ifaces[msg.tag := n.ifaces[msg.tag] - {k}]);
      match env.call
      case Done => (removed.(mem := n.mem - {msg.id}), Applied)
      case Failed => (n, Rejected)
      case FailedLate => (removed, Rejected)
  }

  function DeleteXray(n: Node, msg: Message, env: Env): (Node, Outcome)
  {
    if !n.xray || env.call != Done then (n, Rejected)
    else (n.(mem := n.mem - {msg.id}), Applied)
  }

  function Handle(n: Node, msg: Message, env: Env): (Node, Outcome)
  {
    match msg.action
    case ResetStat => (n, if env.call == Done then Applied else Rejected)
    case Delete =>
      if IsPeerTag(msg.tag) then DeletePeer(n, msg, env)
      else if IsXray(msg.tag) then DeleteXray(n, msg, env)
      else (n, Rejected)
    case _ =>
      if IsPeerTag(msg.tag) then CreatePeer(n, msg, env)
      else if IsXray(msg.tag) then CreateXray(n, msg, env)
      else (n, Rejected)
  }

  // ---- Peer ownership ----

  ghost predicate Owns(n: Node, id: Id, tag: Tag, k: PubKey)
  {
    id in n.mem && n.mem[id] == Conn(tag, Some(Wg(Some(k))))
  }

  /** Every peer on an interface belongs to a connection still in memory. */
  ghost predicate AllPeersOwned(n: Node)
  {
    && (forall tag :: tag in n.ifaces ==> IsPeerTag(tag))
    && forall tag, k :: tag in n.ifaces && k in n.ifaces[tag] ==> exists id :: Owns(n, id, tag, k)
  }

  /** The message puts key `k` on its interface: the guards of the create path. */
  predicate AddsKey(n: Node, msg: Message, env: Env, k: PubKey)
  {
    && (msg.action == Create || msg.action == Update) && IsPeerTag(msg.tag)
    && msg.tag in n.ifaces && msg.wg == Some(Wg(Some(k)))
    && (IsAmnezia(msg.tag) ==> env.readOk) && !(env.readOk && k in n.ifaces[msg.tag]) && env.call != Failed
  }

  /** The message removes its connection from memory: the guards of the delete path. */
  predicate Forgets(n: Node, msg: Message, env: Env)
  {
    && msg.action == Delete && msg.id in n.mem && env.call == Done
    && if IsPeerTag(msg.tag) then msg.tag in n.ifaces && msg.wg.Some? && msg.wg.value.key.Some?
       else IsXray(msg.tag) && n.xray
  }

  /** A key is only added for a connection that is new to memory, or that some
      connection already owns. */
  ghost predicate CreateSafe(n: Node, msg: Message, env: Env)
  {
    forall k :: AddsKey(n, msg, env, k) ==> msg.id !in n.mem || exists id :: Owns(n, id, msg.tag, k)
  }

  /** A connection is only forgotten with the installed peer it owns, if any,
      unless another connection owns that peer too. */
  ghost predicate DeleteSafe(n: Node, msg: Message, env: Env)
  {
    Forgets(n, msg, env) ==>
      forall tag, k :: tag in n.ifaces && k in n.ifaces[tag] && Owns(n, msg.id, tag, k) ==>
        (msg.tag == tag && msg.wg == Some(Wg(Some(k)))) || exists id :: id != msg.id && Owns(n, id, tag, k)
  }

  ghost predicate Safe(n: Node, msg: Message, env: Env)
  {
    CreateSafe(n, msg, env) && DeleteSafe(n, msg, env)
  }

  lemma OwnersSurvive(n: Node, n': Node)
    requires AllPeersOwned(n) && n'.ifaces.Keys == n.ifaces.Keys
    requires forall id :: id in n.mem ==> id in n'.mem && n'.mem[id] == n.mem[id]
    requires forall tag, k :: tag in n'.ifaces && k in n'.ifaces[tag] && k !in n.ifaces[tag] ==>
               exists id :: Owns(n', id, tag, k)
    ensures AllPeersOwned(n')
  {
    forall tag, k | tag in n'.ifaces && k in n'.ifaces[tag] ensures exists id :: Owns(n', id, tag, k) {
      if k in n.ifaces[tag] {
        var id :| Owns(n, id, tag, k);
        assert Owns(n', id, tag, k);
      }
    }
  }

  /** What a create or update does to memory... */
  lemma CreateMemory(n: Node, msg: Message, env: Env)
    requires msg.action == Create || msg.action == Update
    ensures var n' := Handle(n, msg, env).0;
            && (forall id :: id in n.mem ==> id in n'.mem && n'.mem[id] == n.mem[id])
            && (forall id :: id in n'.mem && id !in n.mem ==> id == msg.id)
            && (msg.id !in n.mem ==> forall k :: AddsKey(n, msg, env, k) ==> Owns(n', msg.id, msg.tag, k))
  {
  }

  /** ...and to the interfaces. */
  lemma CreateEffect(n: Node, msg: Message, env: Env)
    requires msg.action == Create || msg.action == Update
    ensures var n' := Handle(n, msg, env).0;
            && n'.ifaces.Keys == n.ifaces.Keys
            && (forall t, k :: t in n.ifaces ==>
                  (k in n'.ifaces[t] <==> k in n.ifaces[t] || (t == msg.tag && AddsKey(n, msg, env, k))))
  {
    assert IsPeerTag(msg.tag) ==> !IsXray(msg.tag);
  }

  lemma CreateOwnedIff(n: Node, msg: Message, env: Env)
    requires AllPeersOwned(n) && (msg.action == Create || msg.action == Update)
    ensures AllPeersOwned(Handle(n, msg, env).0) <==> CreateSafe(n, msg, env)
  {
    var n' := Handle(n, msg, env).0;
    CreateMemory(n, msg, env);
    CreateEffect(n, msg, env);
    if CreateSafe(n, msg, env) {
      forall t, k | t in n'.ifaces && k in n'.ifaces[t] && k !in n.ifaces[t] ensures exists id :: Owns(n', id, t, k) {
        assert AddsKey(n, msg, env, k);
        if msg.id in n.mem {
          var id :| Owns(n, id, msg.tag, k);
          assert Owns(n', id, t, k);
        } else {
          assert Owns(n', msg.id, t, k);
        }
      }
      OwnersSurvive(n, n');
    } else {
      var k :| AddsKey(n, msg, env, k) && msg.id in n.mem && !exists id :: Owns(n, id, msg.tag, k);
      assert k in n'.ifaces[msg.tag];
      forall id ensures !Owns(n', id, msg.tag, k) {
        assert id in n'.mem ==> id in n.mem;
        assert !Owns(n, id, msg.tag, k);
      }
    }
  }

  /** What a delete does to memory and to the interfaces. */
  lemma DeleteEffect(n: Node, msg: Message, env: Env)
    requires msg.action == Delete
    ensures var n' := Handle(n, msg, env).0;
            && n'.ifaces.Keys == n.ifaces.Keys
            && n'.mem == (if Forgets(n, msg, env) then n.mem - {msg.id} else n.mem)
            && (forall t, k :: t in n.ifaces && k in n'.ifaces[t] ==> k in n.ifaces[t])
            && (forall t, k :: t in n.ifaces && k in n.ifaces[t] && k !in n'.ifaces[t] ==>
                  t == msg.tag && msg.wg == Some(Wg(Some(k))))
            && (Forgets(n, msg, env) && IsPeerTag(msg.tag) ==> msg.wg.value.key.value !in n'.ifaces[msg.tag])
  {
    assert IsPeerTag(msg.tag) ==> !IsXray(msg.tag);
    if msg.id !in n.mem {
      assert n.mem - {msg.id} == n.mem;
    }
  }

  lemma DeleteOwnedIff(n: Node, msg: Message, env: Env)
    requires AllPeersOwned(n) && msg.action == Delete
    ensures AllPeersOwned(Handle(n, msg, env).0) <==> DeleteSafe(n, msg, env)
  {
    var n' := Handle(n, msg, env).0;
    DeleteEffect(n, msg, env);
    if DeleteSafe(n, msg, env) {
      forall t, k | t in n'.ifaces && k in n'.ifaces[t] ensures exists id :: Owns(n', id, t, k) {
        SurvivingOwner(n, msg, env, t, k);
      }
    } else {
      var t, k :| t in n.ifaces && k in n.ifaces[t] && Owns(n, msg.id, t, k)
                  && !(msg.tag == t && msg.wg == Some(Wg(Some(k))))
                  && !exists id :: id != msg.id && Owns(n, id, t, k);
      assert k in n'.ifaces[t];
      forall id ensures !Owns(n', id, t, k) {
        assert Owns(n', id, t, k) ==> id != msg.id && Owns(n, id, t, k);
      }
    }
  }

  lemma SurvivingOwner(n: Node, msg: Message, env: Env, t: Tag, k: PubKey)
    requires AllPeersOwned(n) && msg.action == Delete && DeleteSafe(n, msg, env)
    requires t in n.ifaces && t in Handle(n, msg, env).0.ifaces && k in Handle(n, msg, env).0.ifaces[t]
    ensures exists id :: Owns(Handle(n, msg, env).0, id, t, k)
  {
    var n' := Handle(n, msg, env).0;
    DeleteEffect(n, msg, env);
    var id :| Owns(n, id, t, k);
    if Forgets(n, msg, env) && id == msg.id {
      assert IsPeerTag(t);
      var other :| other != msg.id && Owns(n, other, t, k);
      assert Owns(n', other, t, k);
    } else {
      assert Owns(n', id, t, k);
    }
  }

  /** Exactly the safe messages, whatever fails on the way, leave every peer
      owned by a connection in memory, where prune can find it. */
  lemma OwnedIff(n: Node, msg: Message, env: Env)
    requires AllPeersOwned(n)
    ensures AllPeersOwned(Handle(n, msg, env).0) <==> Safe(n, msg, env)
  {
    match msg.action
    case ResetStat =>
    case Delete => DeleteOwnedIff(n, msg, env);
    case _ => CreateOwnedIff(n, msg, env);
  }

  /** The api's books: each connection id has one tag and one key for life. */
  ghost predicate Agrees(book: map<Id, Conn>, n: Node)
  {
    forall id :: id in n.mem ==> id in book && n.mem[id] == book[id]
  }

  ghost predicate InBook(book: map<Id, Conn>, msg: Message)
  {
    && msg.id in book && book[msg.id].tag == msg.tag
    && (if IsPeerTag(msg.tag) then msg.wg.Some? ==> book[msg.id].wg == msg.wg else book[msg.id].wg.None?)
  }

  lemma BookedIsSafe(book: map<Id, Conn>, n: Node, msg: Message, env: Env)
    requires Agrees(book, n) && InBook(book, msg)
    ensures Safe(n, msg, env)
  {
    forall k | AddsKey(n, msg, env, k) && msg.id in n.mem ensures exists id :: Owns(n, id, msg.tag, k) {
      assert Owns(n, msg.id, msg.tag, k);
    }
  }

  /** Messages that keep to the books are safe, and memory keeps to them too. */
  lemma HandleKeepsOwners(book: map<Id, Conn>, n: Node, msg: Message, env: Env)
    requires AllPeersOwned(n) && Agrees(book, n) && InBook(book, msg)
    ensures AllPeersOwned(Handle(n, msg, env).0) && Agrees(book, Handle(n, msg, env).0)
  {
    BookedIsSafe(book, n, msg, env);
    OwnedIff(n, msg, env);
  }

  /** A delete whose tag is not the connection's own orphans the peer. */
  lemma MistaggedDeleteOrphansPeer()
    ensures var n := Node(map[1 := Conn(AmneziaWg, Some(Wg(Some("k"))))], map[Wireguard := {}, AmneziaWg := {"k"}], true);
            var msg := Message(1, Delete, Wireguard, Some(Wg(Some("k"))), None);
            AllPeersOwned(n) && !AllPeersOwned(Handle(n, msg, Env(true, Done)).0)
  {
    var n := Node(map[1 := Conn(AmneziaWg, Some(Wg(Some("k"))))], map[Wireguard := {}, AmneziaWg := {"k"}], true);
    var msg := Message(1, Delete, Wireguard, Some(Wg(Some("k"))), None);
    assert Owns(n, 1, AmneziaWg, "k");
    var n' := Handle(n, msg, Env(true, Done)).0;
    assert n'.mem == map[];
    assert AmneziaWg in n'.ifaces && "k" in n'.ifaces[AmneziaWg];
  }

  /** An update with a new key takes the create path, which keeps the old
      connection in memory and installs the new key without an owner. */
  lemma RekeyedUpdateOrphansPeer()
    ensures var n := Node(map[1 := Conn(Wireguard, Some(Wg(Some("a"))))], map[Wireguard := {"a"}], true);
            var msg := Message(1, Update, Wireguard, Some(Wg(Some("b"))), None);
            AllPeersOwned(n) && !AllPeersOwned(Handle(n, msg, Env(true, Done)).0)
  {
    var n := Node(map[1 := Conn(Wireguard, Some(Wg(Some("a"))))], map[Wireguard := {"a"}], true);
    var msg := Message(1, Update, Wireguard, Some(Wg(Some("b"))), None);
    assert Owns(n, 1, Wireguard, "a");
    assert "a"[0] != "b"[0];
    var n' := Handle(n, msg, Env(true, Done)).0;
    assert n'.mem == n.mem && "b" in n'.ifaces[Wireguard];
    forall id ensures !Owns(n', id, Wireguard, "b") {}
  }

  // ---- Prune ----

  /** What is not listed of the released tags. */
  function StaleIds(n: Node, released: KeepSets): set<Id>
  {
    set id | id in n.mem && n.mem[id].tag in released && id !in released[n.mem[id].tag]
  }

  /** The delete message that prune builds from what memory holds. */
  function DeleteFor(n: Node, id: Id, password: Option<string>): Message
    requires id in n.mem
  {
    Message(id, Delete, n.mem[id].tag, n.mem[id].wg, password)
  }

  /** Handle the messages one after the other, going on after a failure. */
  function HandleAll(n: Node, msgs: seq<Message>, envs: seq<Env>): (r: (Node, nat))
    requires |msgs| == |envs|
    ensures r.1 <= |msgs|
  {
    if msgs == [] then (n, 0) else
      var init := HandleAll(n, msgs[..|msgs| - 1], envs[..|envs| - 1]);
      var last := Handle(init.0, msgs[|msgs| - 1], envs[|envs| - 1]);
      (last.0, init.1 + if last.1 == Applied then 1 else 0)
  }

  ghost predicate DistinctIds(msgs: seq<Message>)
  {
    forall i, j :: 0 <= i < j < |msgs| ==> msgs[i].id != msgs[j].id
  }

  /** Each message is the delete of a connection in memory. */
  ghost predicate OwnDeletes(n: Node, msgs: seq<Message>)
  {
    forall i :: 0 <= i < |msgs| ==> msgs[i].id in n.mem && msgs[i] == DeleteFor(n, msgs[i].id, msgs[i].password)
  }

  /** `msgs` are the deletes of all that is not listed, in some order. */
  ghost predicate IsPruneList(n: Node, released: KeepSets, msgs: seq<Message>)
  {
    OwnDeletes(n, msgs) && DistinctIds(msgs) && IdsOf(msgs) == StaleIds(n, released)
  }

  /** A delete touches no other id and no other tag's interface, and removes
      the connection exactly if its guards hold and its call is answered. */
  ghost predicate Deleted(n: Node, n': Node, msg: Message, env: Env, r: Outcome)
  {
    && n'.mem == (if Forgets(n, msg, env) then n.mem - {msg.id} else n.mem)
    && n'.ifaces.Keys == n.ifaces.Keys && n'.xray == n.xray
    && (forall t :: t in n.ifaces && t != msg.tag ==> n'.ifaces[t] == n.ifaces[t])
    && (msg.id in n.mem ==> (r == Applied <==> Forgets(n, msg, env)))
  }

  lemma DeleteFrame(n: Node, msg: Message, env: Env)
    requires msg.action == Delete
    ensures Deleted(n, Handle(n, msg, env).0, msg, env, Handle(n, msg, env).1)
  {
    assert IsPeerTag(msg.tag) ==> !IsXray(msg.tag);
    if msg.id !in n.mem {
      assert n.mem - {msg.id} == n.mem;
    }
  }

  /** The deletes of `ids`, `removed` of which succeeded. */
  ghost predicate Frame(n: Node, n': Node, tags: set<Tag>, ids: set<Id>, removed: nat)
  {
    && (forall id :: id in n'.mem ==> id in n.mem && n'.mem[id] == n.mem[id])
    && (forall id :: id in n.mem && id !in ids ==> id in n'.mem)
    && n'.ifaces.Keys == n.ifaces.Keys && n'.xray == n.xray
    && (forall t :: t in n.ifaces && t !in tags ==> n'.ifaces[t] == n.ifaces[t])
    && |n'.mem| == |n.mem| - removed
  }

  lemma FrameStep(n: Node, m: Node, n': Node, tags: set<Tag>, ids: set<Id>, removed: nat,
                  msg: Message, env: Env, r: Outcome)
    requires Frame(n, m, tags, ids, removed) && Deleted(m, n', msg, env, r) && msg.id in n.mem && msg.id !in ids
    ensures Frame(n, n', tags + {msg.tag}, ids + {msg.id}, removed + if r == Applied then 1 else 0)
    ensures msg.id in n'.mem <==> !Forgets(n, msg, env)
    ensures forall id :: id in ids ==> (id in n'.mem <==> id in m.mem)
  {
    assert n'.mem.Keys == if Forgets(m, msg, env) then m.mem.Keys - {msg.id} else m.mem.Keys;
  }

  function IdsOf(msgs: seq<Message>): set<Id>
  {
    set i | 0 <= i < |msgs| :: msgs[i].id
  }

  lemma IdsSnoc(msgs: seq<Message>, m: Message)
    ensures IdsOf(msgs + [m]) == IdsOf(msgs) + {m.id}
  {
    var more := msgs + [m];
    forall id | id in IdsOf(msgs) ensures id in IdsOf(more) {
      var i :| 0 <= i < |msgs| && msgs[i].id == id;
      assert more[i].id == id;
    }
    assert more[|msgs|].id in IdsOf(more);
  }

  function TagsOf(msgs: seq<Message>): set<Tag>
  {
    set i | 0 <= i < |msgs| :: msgs[i].tag
  }

  lemma TagsSnoc(msgs: seq<Message>, m: Message)
    ensures TagsOf(msgs + [m]) == TagsOf(msgs) + {m.tag}
  {
    var more := msgs + [m];
    forall t | t in TagsOf(msgs) ensures t in TagsOf(more) {
      var i :| 0 <= i < |msgs| && msgs[i].tag == t;
      assert more[i].tag == t;
    }
    assert more[|msgs|].tag in TagsOf(more);
  }

  /** The deletes whose guards hold and whose calls are answered, and no
      others, take their connections out of memory. */
  ghost predicate RemovedIff(n: Node, n': Node, msgs: seq<Message>, envs: seq<Env>)
    requires |msgs| == |envs|
  {
    forall i :: 0 <= i < |msgs| ==> (msgs[i].id in n'.mem <==> !Forgets(n, msgs[i], envs[i]))
  }

  /** Counting the removals: memory shrinks by exactly the deletes that succeeded. */
  lemma {:induction false} DeletesFrame(n: Node, msgs: seq<Message>, envs: seq<Env>)
    requires |msgs| == |envs| && OwnDeletes(n, msgs) && DistinctIds(msgs)
    ensures var (n', removed) := HandleAll(n, msgs, envs);
            Frame(n, n', TagsOf(msgs), IdsOf(msgs), removed) && RemovedIff(n, n', msgs, envs)
  {
    if msgs != [] {
      var k := |msgs| - 1;
      var init, msg := msgs[..k], msgs[k];
      DeletesFrame(n, init, envs[..k]);
      var (m, removed) := HandleAll(n, init, envs[..k]);
      var (n', r) := Handle(m, msg, envs[k]);
      DeleteFrame(m, msg, envs[k]);
      assert msgs == init + [msg];
      IdsSnoc(init, msg);
      TagsSnoc(init, msg);
      FrameStep(n, m, n', TagsOf(init), IdsOf(init), removed, msg, envs[k], r);
      RemovedSnoc(n, m, n', msgs, envs);
    }
  }

  lemma RemovedSnoc(n: Node, m: Node, n': Node, msgs: seq<Message>, envs: seq<Env>)
    requires |msgs| == |envs| > 0
    requires var k := |msgs| - 1;
             && RemovedIff(n, m, msgs[..k], envs[..k])
             && (msgs[k].id in n'.mem <==> !Forgets(n, msgs[k], envs[k]))
             && forall id :: id in IdsOf(msgs[..k]) ==> (id in n'.mem <==> id in m.mem)
    ensures RemovedIff(n, n', msgs, envs)
  {
    var k := |msgs| - 1;
    forall i | 0 <= i < k ensures msgs[i].id in n'.mem <==> !Forgets(n, msgs[i], envs[i]) {
      assert msgs[..k][i].id in IdsOf(msgs[..k]) && envs[..k][i] == envs[i];
    }
  }

  /** From `n` to `n'` only unlisted connections of released tags have gone. */
  ghost predicate OnlyPruned(n: Node, n': Node, released: KeepSets)
  {
    && (forall id :: id in n'.mem ==> id in n.mem && n'.mem[id] == n.mem[id])
    && (forall id :: id in n.mem && (n.mem[id].tag in released ==> id in released[n.mem[id].tag]) ==> id in n'.mem)
    && n'.ifaces.Keys == n.ifaces.Keys
    && (forall t :: t in n.ifaces && t !in released ==> n'.ifaces[t] == n.ifaces[t])
  }

  /** A prune never touches the listed connections, the other tags or their
      peers; an unlisted connection goes if and only if the guards of its delete
      hold and its call is answered; and the number the prune reports is the
      number of connections gone. */
  lemma PruneMeaning(n: Node, released: KeepSets, msgs: seq<Message>, envs: seq<Env>)
    requires |msgs| == |envs| && IsPruneList(n, released, msgs)
    ensures var (n', removed) := HandleAll(n, msgs, envs);
            && OnlyPruned(n, n', released) && RemovedIff(n, n', msgs, envs)
            && |n'.mem| == |n.mem| - removed
  {
    DeletesFrame(n, msgs, envs);
    forall i | 0 <= i < |msgs| ensures msgs[i].tag in released {
      assert msgs[i].id in IdsOf(msgs);
    }
  }

  /** The released tags none of whose deletes is refused: all guards hold and
      all calls are answered. */
  ghost function FullyPruned(n: Node, released: KeepSets, msgs: seq<Message>, envs: seq<Env>): set<Tag>
    requires |msgs| == |envs|
  {
    set tag | tag in released && forall i :: 0 <= i < |msgs| && msgs[i].tag == tag ==> Forgets(n, msgs[i], envs[i])
  }

  ghost predicate NothingElse(n: Node, tag: Tag, keep: set<Id>)
  {
    forall id :: id in n.mem && n.mem[id].tag == tag ==> id in keep
  }

  /** A released tag is left with listed connections only if and only if none
      of its deletes is refused. */
  lemma FullyPrunedIff(n: Node, released: KeepSets, msgs: seq<Message>, envs: seq<Env>, tag: Tag)
    requires |msgs| == |envs| && IsPruneList(n, released, msgs) && tag in released
    ensures tag in FullyPruned(n, released, msgs, envs) <==>
            NothingElse(HandleAll(n, msgs, envs).0, tag, released[tag])
  {
    var n' := HandleAll(n, msgs, envs).0;
    PruneMeaning(n, released, msgs, envs);
    if tag in FullyPruned(n, released, msgs, envs) {
      forall id | id in n.mem && n.mem[id].tag == tag && id !in released[tag] ensures id !in n'.mem {
        assert id in IdsOf(msgs);
        var i :| 0 <= i < |msgs| && msgs[i].id == id;
        assert msgs[i].tag == tag;
      }
    } else {
      var i :| 0 <= i < |msgs| && msgs[i].tag == tag && !Forgets(n, msgs[i], envs[i]);
      assert msgs[i].id in n'.mem && msgs[i].id in IdsOf(msgs);
    }
  }

  /** The guards of the delete that prune would build for a connection. */
  predicate Removable(n: Node, id: Id)
    requires id in n.mem
  {
    var Conn(tag, wg) := n.mem[id];
    if IsPeerTag(tag) then tag in n.ifaces && wg.Some? && wg.value.key.Some? else IsXray(tag) && n.xray
  }

  /** If the guards hold for all that is not listed and every call is answered,
      every released tag is fully pruned. */
  lemma AnsweredPruneIsFull(n: Node, released: KeepSets, msgs: seq<Message>, envs: seq<Env>)
    requires |msgs| == |envs| && IsPruneList(n, released, msgs)
    requires forall id :: id in StaleIds(n, released) ==> Removable(n, id)
    requires forall i :: 0 <= i < |envs| ==> envs[i].call == Done
    ensures FullyPruned(n, released, msgs, envs) == released.Keys
  {
    forall i | 0 <= i < |msgs| ensures Forgets(n, msgs[i], envs[i]) {
      assert msgs[i].id in IdsOf(msgs);
    }
  }

  ghost predicate SubMemory(n: Node, n': Node)
  {
    forall id :: id in n'.mem ==> id in n.mem && n'.mem[id] == n.mem[id]
  }

  lemma OwnDeleteIsSafe(n: Node, msg: Message, env: Env)
    requires msg.action == Delete && (msg.id in n.mem ==> n.mem[msg.id] == Conn(msg.tag, msg.wg))
    ensures Safe(n, msg, env)
  {
  }

  /** Prune keeps every peer owned, however many of its deletes fail: it
      builds each delete from what memory holds. */
  lemma {:induction false} DeletesKeepOwners(n: Node, msgs: seq<Message>, envs: seq<Env>)
    requires |msgs| == |envs| && AllPeersOwned(n) && OwnDeletes(n, msgs)
    ensures AllPeersOwned(HandleAll(n, msgs, envs).0) && SubMemory(n, HandleAll(n, msgs, envs).0)
  {
    if msgs != [] {
      var k := |msgs| - 1;
      var m := HandleAll(n, msgs[..k], envs[..k]).0;
      DeletesKeepOwners(n, msgs[..k], envs[..k]);
      OwnDeleteIsSafe(m, msgs[k], envs[k]);
      OwnedIff(m, msgs[k], envs[k]);
      DeleteEffect(m, msgs[k], envs[k]);
    }
  }

  /** Pruning the released tags: the deletes of all that is not listed are
      handled, in some order, with the given answers. */
  ghost predicate Pruning(n: Node, m: Node, released: KeepSets, deletes: seq<Message>, envs: seq<Env>)
  {
    |deletes| == |envs| && IsPruneList(n, released, deletes) && m == HandleAll(n, deletes, envs).0
  }

  /** A prune, and the tags of which nothing unlisted is left. */
  ghost predicate Prunes(n: Node, n': Node, released: KeepSets, deletes: seq<Message>, envs: seq<Env>, pruned: set<Tag>)
  {
    Pruning(n, n', released, deletes, envs) && pruned == FullyPruned(n, released, deletes, envs)
  }

  lemma {:induction false} HandleMore(n: Node, a: seq<Message>, b: seq<Message>, ea: seq<Env>, eb: seq<Env>)
    requires |a| == |ea| && |b| == |eb|
    ensures HandleAll(n, a + b, ea + eb).0 == HandleAll(HandleAll(n, a, ea).0, b, eb).0
    decreases |b|
  {
    if b == [] {
      assert a + b == a && ea + eb == ea;
    } else {
      var k := |b| - 1;
      HandleMore(n, a, b[..k], ea, eb[..k]);
      assert (a + b)[..|a + b| - 1] == a + b[..k] && (ea + eb)[..|ea + eb| - 1] == ea + eb[..k];
    }
  }

  lemma IdsConcat(a: seq<Message>, b: seq<Message>)
    ensures IdsOf(a + b) == IdsOf(a) + IdsOf(b)
  {
    forall id | id in IdsOf(a) + IdsOf(b) ensures id in IdsOf(a + b) {
      if id in IdsOf(a) {
        var i :| 0 <= i < |a| && a[i].id == id;
        assert (a + b)[i].id == id;
      } else {
        var i :| 0 <= i < |b| && b[i].id == id;
        assert (a + b)[|a| + i].id == id;
      }
    }
  }

  /** The deletes of one more tag, built after those of others are handled,
      are what they would have been before. */
  lemma PruneListGrows(n: Node, m: Node, released: KeepSets, a: seq<Message>, tag: Tag, keep: set<Id>, b: seq<Message>)
    requires OnlyPruned(n, m, released) && IsPruneList(n, released, a)
    requires tag !in released && IsPruneList(m, map[tag := keep], b)
    ensures IsPruneList(n, released[tag := keep], a + b)
  {
    var one, more := map[tag := keep], released[tag := keep];
    assert StaleIds(m, one) == StaleIds(n, one);
    assert StaleIds(n, more) == StaleIds(n, released) + StaleIds(n, one);
    IdsConcat(a, b);
    forall i | 0 <= i < |b| ensures b[i].id in StaleIds(n, one) && b[i] == DeleteFor(n, b[i].id, b[i].password) {
      assert b[i].id in IdsOf(b);
    }
    forall i | 0 <= i < |a| ensures a[i].id in StaleIds(n, released) {
      assert a[i].id in IdsOf(a);
    }
  }

  // ---- Batches ----

  /** During a full sync, a create for a connection already in memory is only
      counted, not applied again. */
  predicate Skipped(n: Node, states: States, msg: Message)
  {
    msg.action == Create && msg.tag in states && msg.id in n.mem && n.mem[msg.id].tag == msg.tag
  }

  function Unskipped(n: Node, states: States): Message -> bool
  {
    (msg: Message) => !Skipped(n, states, msg)
  }

  function IsTracked(): Message -> bool
  {
    (msg: Message) => msg.action == Create || msg.action == Update
  }

  function RecordAll(states: States, msgs: seq<Message>): States
  {
    if msgs == [] then states else
      var m := msgs[|msgs| - 1];
      Step(RecordAll(states, msgs[..|msgs| - 1]), Event.Record(m.tag, m.id)).0
  }

  /** The world's answers to a run of consecutive calls. */
  function Answers(world: nat -> Env, from: nat, count: nat): (envs: seq<Env>)
    ensures |envs| == count
  {
    seq(count, i requires 0 <= i < count => world(from + i))
  }

  lemma AnswersConcat(world: nat -> Env, from: nat, a: nat, b: nat)
    ensures Answers(world, from, a) + Answers(world, from + a, b) == Answers(world, from, a + b)
  {
  }

  /** Handle the messages in order up to the first failure; the last
      component counts the calls made. */
  function ApplyUntil(n: Node, msgs: seq<Message>, world: nat -> Env, from: nat): (Node, Outcome, nat)
    decreases |msgs|
  {
    if msgs == [] then (n, Applied, from) else
      var (n', r) := Handle(n, msgs[0], world(from));
      if r == Rejected then (n', Rejected, from + 1) else ApplyUntil(n', msgs[1..], world, from + 1)
  }

  lemma HandleOneMore(n: Node, msgs: seq<Message>, world: nat -> Env, from: nat, i: nat)
    requires i < |msgs|
    ensures var before := HandleAll(n, msgs[..i], Answers(world, from, i));
            var last := Handle(before.0, msgs[i], world(from + i));
            HandleAll(n, msgs[..i + 1], Answers(world, from, i + 1)) ==
            (last.0, before.1 + if last.1 == Applied then 1 else 0)
  {
    assert msgs[..i + 1][..i] == msgs[..i];
    assert Answers(world, from, i + 1)[..i] == Answers(world, from, i);
  }

  /** Every message of the batch that is reached is safe when its turn comes. */
  ghost predicate SafeRun(n: Node, msgs: seq<Message>, world: nat -> Env, from: nat)
    decreases |msgs|
  {
    msgs != [] ==>
      && Safe(n, msgs[0], world(from))
      && var (n', r) := Handle(n, msgs[0], world(from));
         (r == Applied ==> SafeRun(n', msgs[1..], world, from + 1))
  }

  /** Every peer is owned before, after and at each step of the batch. */
  ghost predicate OwnedRun(n: Node, msgs: seq<Message>, world: nat -> Env, from: nat)
    decreases |msgs|
  {
    && AllPeersOwned(n)
    && (msgs != [] ==>
          var (n', r) := Handle(n, msgs[0], world(from));
          AllPeersOwned(n') && (r == Applied ==> OwnedRun(n', msgs[1..], world, from + 1)))
  }

  /** Peers stay owned throughout a batch exactly when its messages are safe. */
  lemma {:induction false} BatchOwnedIff(n: Node, msgs: seq<Message>, world: nat -> Env, from: nat)
    requires AllPeersOwned(n)
    ensures OwnedRun(n, msgs, world, from) <==> SafeRun(n, msgs, world, from)
    ensures SafeRun(n, msgs, world, from) ==> AllPeersOwned(ApplyUntil(n, msgs, world, from).0)
    decreases |msgs|
  {
    if msgs != [] {
      var (n', r) := Handle(n, msgs[0], world(from));
      OwnedIff(n, msgs[0], world(from));
      if AllPeersOwned(n') {
        BatchOwnedIff(n', msgs[1..], world, from + 1);
      }
    }
  }

  /** A batch that keeps to the books is safe. */
  lemma {:induction false} BookedRunSafe(book: map<Id, Conn>, n: Node, msgs: seq<Message>, world: nat -> Env, from: nat)
    requires AllPeersOwned(n) && Agrees(book, n) && forall m :: m in msgs ==> InBook(book, m)
    ensures SafeRun(n, msgs, world, from) && Agrees(book, ApplyUntil(n, msgs, world, from).0)
    decreases |msgs|
  {
    if msgs != [] {
      assert msgs[0] in msgs;
      BookedIsSafe(book, n, msgs[0], world(from));
      HandleKeepsOwners(book, n, msgs[0], world(from));
      BookedRunSafe(book, Handle(n, msgs[0], world(from)).0, msgs[1..], world, from + 1);
    }
  }

  lemma PruneAnother(n: Node, m: Node, released: KeepSets, deletes: seq<Message>, envs: seq<Env>,
                     tag: Tag, keep: set<Id>, more: seq<Message>, later: seq<Env>)
    requires Pruning(n, m, released, deletes, envs) && tag !in released
    requires |more| == |later| && IsPruneList(m, map[tag := keep], more)
    ensures Pruning(n, HandleAll(m, more, later).0, released[tag := keep], deletes + more, envs + later)
  {
    PruneMeaning(n, released, deletes, envs);
    PruneListGrows(n, m, released, deletes, tag, keep, more);
    HandleMore(n, deletes, more, envs, later);
  }

  /** What a batch does: a failed one disarms every tag it carried and prunes
      nothing; a successful one records its ids and prunes the tags whose count
      is now reached. */
  ghost predicate BatchOutcome(n: Node, states: States, msgs: seq<Message>, world: nat -> Env, r: Outcome,
                               n': Node, states': States, released: KeepSets, deletes: seq<Message>, pruned: set<Tag>)
  {
    var tracked := Filter(msgs, IsTracked());
    var mid := ApplyUntil(n, Filter(msgs, Unskipped(n, states)), world, 0);
    && r == mid.1
    && (r == Rejected ==>
          n' == mid.0 && states' == states - TagsOf(tracked) && released == map[] && deletes == [] && pruned == {})
    && (r == Applied ==>
          && (states', released) == Step(RecordAll(states, tracked), Event.TakeReady)
          && Prunes(mid.0, n', released, deletes, Answers(world, mid.2, |deletes|), pruned))
  }

  class Worker {
    var mem: map<Id, Conn>
    var ifaces: map<Tag, set<PubKey>>
    const xray: bool
    const fullSync: FullSyncTracker

    constructor (ifaces: map<Tag, set<PubKey>>, xray: bool, fullSync: FullSyncTracker)
      ensures State() == Node(map[], ifaces, xray) && this.fullSync == fullSync
    {
      this.mem, this.ifaces, this.xray, this.fullSync := map[], ifaces, xray, fullSync;
    }

    function State(): Node
      reads this
    {
      Node(mem, ifaces, xray)
    }

    method AddConnection(id: Id, c: Conn)
      modifies this`mem
      ensures State() == AddConn(old(State()), id, c)
    {
      if id !in mem {
        mem := mem[id := c];
      }
    }

    /** Memory first, then the interface: a failure in between leaves a
        connection without a peer, never a peer without a connection. */
    method HandleCreate(msg: Message, env: Env) returns (r: Outcome)
      requires IsPeerTag(msg.tag)
      modifies this
      ensures (State(), r) == CreatePeer(old(State()), msg, env)
    {
      if msg.wg.None? {
        return Rejected;
      }
      AddConnection(msg.id, Conn(msg.tag, msg.wg));
      if msg.tag !in ifaces {
        return Rejected;
      }
      if msg.wg.value.key.None? {
        return if IsAmnezia(msg.tag) then Rejected else Applied;
      }
      var k := msg.wg.value.key.value;
      if IsAmnezia(msg.tag) && !env.readOk {
        return Rejected;
      }
      if env.readOk && k in ifaces[msg.tag] {
        return Rejected;
      }
      if env.call != Failed {
        ifaces := ifaces[msg.tag := ifaces[msg.tag] + {k}];
      }
      r := if env.call == Done then Applied else Rejected;
    }

    /** The interface first, then memory. */
    method HandleDelete(msg: Message, env: Env) returns (r: Outcome)
      requires IsPeerTag(msg.tag)
      modifies this
      ensures (State(), r) == DeletePeer(old(State()), msg, env)
    {
      if msg.tag !in ifaces || msg.wg.None? || msg.wg.value.key.None? {
        return Rejected;
      }
      if env.call != Failed {
        ifaces := ifaces[msg.tag := ifaces[msg.tag] - {msg.wg.value.key.value}];
      }
      if env.call != Done {
        return Rejected;
      }
      mem := mem - {msg.id};
      r := Applied;
    }

    method HandleMessage(msg: Message, env: Env) returns (r: Outcome)
      modifies this
      ensures (State(), r) == Handle(old(State()), msg, env)
    {
      if msg.action == ResetStat {
        return if env.call == Done then Applied else Rejected;
      }
      if IsPeerTag(msg.tag) {
        if msg.action == Delete {
          r := HandleDelete(msg, env);
        } else {
          r := HandleCreate(msg, env);
        }
        return;
      }
      var needsPassword := msg.action != Delete && msg.tag == Shadowsocks;
      if !IsXray(msg.tag) || (needsPassword && msg.password.None?) || !xray || env.call != Done {
        return Rejected;
      }
      if msg.action == Delete {
        mem := mem - {msg.id};
      } else {
        AddConnection(msg.id, Conn(msg.tag, None));
      }
      r := Applied;
    }

    /** The delete messages for what the api did not list. */
    method StaleMessages(tag: Tag, keep: set<Id>, passwords: map<Id, string>) returns (stale: seq<Message>)
      ensures IsPruneList(State(), map[tag := keep], stale)
    {
      stale := [];
      var all := StaleIds(State(), map[tag := keep]);
      var todo := all;
      while todo != {}
        invariant todo <= all && DistinctIds(stale) && OwnDeletes(State(), stale)
        invariant IdsOf(stale) == all - todo
        decreases todo
      {
        var id :| id in todo;
        var password := if id in passwords then Some(passwords[id]) else None;
        IdsSnoc(stale, DeleteFor(State(), id, password));
        forall i | 0 <= i < |stale| ensures stale[i].id != id {
          assert stale[i].id in IdsOf(stale);
        }
        stale := stale + [DeleteFor(State(), id, password)];
        todo := todo - {id};
      }
    }

    /** Delete what the api did not list, one message at a time. */
    method PruneTag(tag: Tag, keep: set<Id>, passwords: map<Id, string>, world: nat -> Env, from: nat)
      returns (removed: nat, calls: nat, ghost msgs: seq<Message>)
      modifies this
      ensures IsPruneList(old(State()), map[tag := keep], msgs) && calls == |msgs|
      ensures (State(), removed) == HandleAll(old(State()), msgs, Answers(world, from, calls))
    {
      var stale := StaleMessages(tag, keep, passwords);
      removed, msgs, calls := 0, stale, |stale|;
      for i := 0 to |stale|
        invariant State() == HandleAll(old(State()), stale[..i], Answers(world, from, i)).0
        invariant removed == HandleAll(old(State()), stale[..i], Answers(world, from, i)).1
      {
        HandleOneMore(old(State()), stale, world, from, i);
        var r := HandleMessage(stale[i], world(from + i));
        if r == Applied {
          removed := removed + 1;
        }
      }
      assert stale[..|stale|] == stale;
    }

    /** Apply the messages in order up to the first failure. */
    method ApplyMessages(msgs: seq<Message>, world: nat -> Env) returns (r: Outcome, calls: nat)
      modifies this
      ensures (State(), r, calls) == ApplyUntil(old(State()), msgs, world, 0)
    {
      calls := 0;
      for i := 0 to |msgs|
        invariant calls == i
        invariant ApplyUntil(old(State()), msgs, world, 0) == ApplyUntil(State(), msgs[i..], world, i)
      {
        assert msgs[i..][0] == msgs[i] && msgs[i..][1..] == msgs[i + 1..];
        r := HandleMessage(msgs[i], world(i));
        calls := calls + 1;
        if r == Rejected {
          return;
        }
      }
      r := Applied;
    }

    /** A failed batch disarms every tag it carried and prunes nothing; a
        successful one records its ids and prunes the tags whose count is now
        reached: the delete of every unlisted connection of theirs is handled. */
    method HandleMessagesBatch(msgs: seq<Message>, passwords: map<Id, string>, world: nat -> Env)
      returns (r: Outcome, ghost released: KeepSets, ghost deletes: seq<Message>, ghost pruned: set<Tag>)
      modifies this, fullSync
      ensures BatchOutcome(old(State()), old(fullSync.states), msgs, world, r,
                           State(), fullSync.states, released, deletes, pruned)
    {
      released, deletes, pruned := map[], [], {};
      var tracked := Filter(msgs, IsTracked());
      var apply := Filter(msgs, Unskipped(State(), fullSync.states));
      var calls;
      r, calls := ApplyMessages(apply, world);
      if r == Rejected {
        CancelAll(tracked);
        return;
      }
      RecordBatch(tracked);
      var ready := fullSync.TakeReady();
      released := ready;
      deletes, pruned := PruneReady(ready, passwords, world, calls);
    }

    method PruneReady(ready: KeepSets, passwords: map<Id, string>, world: nat -> Env, from: nat)
      returns (ghost deletes: seq<Message>, ghost pruned: set<Tag>)
      modifies this
      ensures Prunes(old(State()), State(), ready, deletes, Answers(world, from, |deletes|), pruned)
    {
      deletes := [];
      ghost var done: KeepSets := map[];
      var calls, todo := from, ready.Keys;
      while todo != {}
        invariant todo <= ready.Keys && done == ready - todo && calls == from + |deletes|
        invariant Pruning(old(State()), State(), done, deletes, Answers(world, from, |deletes|))
        decreases todo
      {
        var tag :| tag in todo;
        ghost var before := State();
        ghost var more;
        var removed, used;
        removed, used, more := PruneTag(tag, ready[tag], passwords, world, calls);
        PruneAnother(old(State()), before, done, deletes, Answers(world, from, |deletes|),
                     tag, ready[tag], more, Answers(world, calls, used));
        AnswersConcat(world, from, |deletes|, used);
        calls := calls + used;
        deletes := deletes + more;
        done := done[tag := ready[tag]];
        todo := todo - {tag};
      }
      assert done == ready;
      pruned := FullyPruned(old(State()), ready, deletes, Answers(world, from, |deletes|));
    }

    /** The api's count has come: if it is reached, prune the tag at once. */
    method FinishSync(tag: Tag, expected: nat, passwords: map<Id, string>, world: nat -> Env)
      returns (ghost released: KeepSets, ghost deletes: seq<Message>, ghost pruned: set<Tag>)
      modifies this, fullSync
      ensures (fullSync.states, released) == Step(old(fullSync.states), Event.Finish(tag, expected))
      ensures Prunes(old(State()), State(), released, deletes, Answers(world, 0, |deletes|), pruned)
    {
      var keep := fullSync.Finish(tag, expected);
      released, deletes := map[], [];
      if keep.Some? {
        released := map[tag := keep.value];
        var removed, used;
        removed, used, deletes := PruneTag(tag, keep.value, passwords, world, 0);
      }
      pruned := FullyPruned(old(State()), released, deletes, Answers(world, 0, |deletes|));
    }

    method CancelAll(msgs: seq<Message>)
      modifies fullSync
      ensures fullSync.states == old(fullSync.states) - TagsOf(msgs)
    {
      for i := 0 to |msgs|
        invariant fullSync.states == old(fullSync.states) - TagsOf(msgs[..i])
      {
        fullSync.Cancel(msgs[i].tag);
        assert msgs[..i + 1] == msgs[..i] + [msgs[i]];
        TagsSnoc(msgs[..i], msgs[i]);
      }
      assert msgs[..|msgs|] == msgs;
    }

    method RecordBatch(msgs: seq<Message>)
      modifies fullSync
      ensures fullSync.states == RecordAll(old(fullSync.states), msgs)
    {
      for i := 0 to |msgs|
        invariant fullSync.states == RecordAll(old(fullSync.states), msgs[..i])
      {
        fullSync.Record(msgs[i].tag, msgs[i].id);
        assert msgs[..i + 1][..i] == msgs[..i];
      }
      assert msgs[..|msgs|] == msgs;
    }
  }
}
