/**
 * Any number of controllers and accessories on a network that loses, repeats and reorders messages
 * but does not forge them. The log records handshakes started and links queued.
 */
module HandshakeProtocol {
  import opened Prelude
  import opened Links
  import opened Window
  import opened Handshake

  datatype Msg =
    | ChallengeMsg(ctrl: NxId, chalData: ChalData)
    | ResponseMsg(acc: NxId, ctrl: NxId, respData: Bytes)

  datatype Entry =
    | Started(ctrl: NxId, challenge: U32, salt: Salt)
    | AccessoryLinked(acc: NxId, ctrl: NxId, key: Key, salt: Salt, index: U32)
    | ControllerLinked(ctrl: NxId, acc: NxId, key: Key, salt: Salt)

  datatype System = System(
    accs: map<NxId, AccessoryDevice>, ctrls: map<NxId, ControllerDevice>, net: set<Msg>, log: seq<Entry>)

  datatype Event =
    | Command(ctrl: NxId, challenge: U32, salt: Salt)
    | DeliverChallenge(msg: Msg, acc: NxId)
    | DeliverResponse(msg: Msg, client: nat)
    | TickController(ctrl: NxId, dt: U32)
    | TickAccessory(acc: NxId, dt: U32)
    | RestartController(ctrl: NxId)
    | RestartAccessory(acc: NxId)

  /** The origin key of each accessory. */
  type OriginKeys = NxId -> Key

  // ---------------------------------------------------------------- steps

  ghost predicate DevicesOk(s: System) {
    && (forall a :: a in s.accs ==> AccessoryInv(s.accs[a]))
    && (forall c :: c in s.ctrls ==> Inv(s.ctrls[c].table) && |s.ctrls[c].clients| == CLIENTS)
  }

  function OnCommand(mac: Mac, s: System, e: Event): (r: System)
    requires e.Command? && e.ctrl in s.ctrls
  {
    var c := s.ctrls[e.ctrl];
    var (clients, started) := StartHandshake(mac, c.clients, e.challenge, e.salt);
    s.(ctrls := s.ctrls[e.ctrl := c.(clients := clients)],
       log := if started then s.log + [Started(e.ctrl, e.challenge, e.salt)] else s.log)
  }

  function OnChallenge(mac: Mac, keys: OriginKeys, s: System, msg: Msg, acc: NxId): (r: System)
    requires msg.ChallengeMsg? && acc in s.accs && Sized(s.accs[acc].table) && Formed(s.accs[acc].window)
  {
    var (a, reply, accepted) := ServerPost(mac, keys(acc), s.accs[acc], msg.ctrl, Request(msg.chalData));
    s.(accs := s.accs[acc := a],
       net := if reply.Created? then s.net + {ResponseMsg(acc, msg.ctrl, reply.respData)} else s.net,
       log := if accepted.None? then s.log else
         s.log + [AccessoryLinked(acc, msg.ctrl, accepted.value.key, accepted.value.salt, accepted.value.index)])
  }

  function OnResponse(mac: Mac, s: System, msg: Msg, i: nat): (r: System)
    requires msg.ResponseMsg? && msg.ctrl in s.ctrls && i < |s.ctrls[msg.ctrl].clients| && Sized(s.ctrls[msg.ctrl].table)
  {
    var c := s.ctrls[msg.ctrl];
    var c' := ClientPost(mac, c, i, msg.acc, true, [BytesRep("rD", msg.respData)]);
    s.(ctrls := s.ctrls[msg.ctrl := c'],
       log := if !Queued(c.table, c'.table) then s.log else
         s.log + [ControllerLinked(msg.ctrl, c'.table.pending.id, c'.table.pending.key, c.clients[i].salt)])
  }

  function OnTickController(s: System, ctrl: NxId, dt: U32): (r: System)
    requires ctrl in s.ctrls && Sized(s.ctrls[ctrl].table)
  {
    var c := s.ctrls[ctrl];
    s.(ctrls := s.ctrls[ctrl := ControllerDevice(Ticked(c.clients, dt), Links.Process(c.table, dt))],
       net := s.net + set i | 0 <= i < |c.clients| && TickClient(c.clients[i], dt).1 :: ChallengeMsg(ctrl, c.clients[i].chalData))
  }

  function Next(mac: Mac, keys: OriginKeys, s: System, e: Event): (r: System)
    requires DevicesOk(s)
  {
    match e
    case Command(ctrl, _, _) => if ctrl in s.ctrls then OnCommand(mac, s, e) else s
    case DeliverChallenge(msg, acc) =>
      if msg in s.net && msg.ChallengeMsg? && acc in s.accs then OnChallenge(mac, keys, s, msg, acc) else s
    case DeliverResponse(msg, i) =>
      if msg in s.net && msg.ResponseMsg? && msg.ctrl in s.ctrls && i < CLIENTS then OnResponse(mac, s, msg, i) else s
    case TickController(ctrl, dt) => if ctrl in s.ctrls then OnTickController(s, ctrl, dt) else s
    case TickAccessory(acc, dt) =>
      if acc in s.accs then
        var a := s.accs[acc];
        s.(accs := s.accs[acc := a.(server := ServerProcess(a.server, dt), table := Links.Process(a.table, dt))])
      else s
    case RestartController(ctrl) =>
      if ctrl in s.ctrls then
        s.(ctrls := s.ctrls[ctrl := ControllerDevice(seq(CLIENTS, _ => ZERO_CLIENT), Links.Init(s.ctrls[ctrl].table.nv))])
      else s
    case RestartAccessory(acc) =>
      if acc in s.accs then s.(accs := s.accs[acc := Handshake.RestartAccessory(s.accs[acc])]) else s
  }

  // ---------------------------------------------------------------- what every state keeps

  ghost predicate WasStarted(mac: Mac, log: seq<Entry>, ctrl: NxId, salt: Salt, key: Key) {
    exists challenge: U32 :: Started(ctrl, challenge, salt) in log && key == LinkKey(mac, challenge, salt)
  }

  /** The accessory's entry has a handshake of the same controller behind it. */
  ghost predicate Answered(mac: Mac, keys: OriginKeys, prior: seq<Entry>, e: Entry)
    requires e.AccessoryLinked?
  {
    && e.key == LinkKey(mac, ChallengeInt(mac, keys(e.acc), e.index), e.salt)
    && (exists key: Key :: WasStarted(mac, prior, e.ctrl, e.salt, key) && mac(key, e.salt) == mac(e.key, e.salt))
  }

  /** The controller's entry has an answer of that accessory to it behind it, with the same check value. */
  ghost predicate Confirmed(mac: Mac, prior: seq<Entry>, e: Entry)
    requires e.ControllerLinked?
  {
    && ((e.key == ZERO_KEY && e.salt == ZERO_SALT) || WasStarted(mac, prior, e.ctrl, e.salt, e.key))
    && exists key: Key, salt: Salt, index: U32 ::
         AccessoryLinked(e.acc, e.ctrl, key, salt, index) in prior && mac(key, Inverted(salt)) == mac(e.key, Inverted(e.salt))
  }

  ghost predicate Justified(mac: Mac, keys: OriginKeys, prior: seq<Entry>, e: Entry) {
    match e
    case Started(_, _, _) => true
    case AccessoryLinked(_, _, _, _, _) => Answered(mac, keys, prior, e)
    case ControllerLinked(_, _, _, _) => Confirmed(mac, prior, e)
  }

  ghost predicate LogOk(mac: Mac, keys: OriginKeys, log: seq<Entry>) {
    forall p :: 0 <= p < |log| ==> Justified(mac, keys, log[..p], log[p])
  }

  ghost predicate IndicesConsumed(s: System) {
    forall e, a :: e in s.log && e.AccessoryLinked? && a == e.acc && a in s.accs ==>
      Formed(s.accs[a].window) && Consumed(s.accs[a].window, e.index)
  }

  ghost predicate ClientOk(mac: Mac, log: seq<Entry>, ctrl: NxId, c: Client) {
    if c.active then c.chalData == c.salt + mac(c.key, c.salt) && WasStarted(mac, log, ctrl, c.salt, c.key)
    else c == ZERO_CLIENT
  }

  ghost predicate ClientsOk(mac: Mac, s: System) {
    forall c :: c in s.ctrls ==>
      forall i :: 0 <= i < |s.ctrls[c].clients| ==> ClientOk(mac, s.log, c, s.ctrls[c].clients[i])
  }

  ghost predicate MsgOk(mac: Mac, log: seq<Entry>, m: Msg) {
    match m
    case ChallengeMsg(ctrl, chalData) =>
      exists key: Key :: WasStarted(mac, log, ctrl, chalData[..8], key) && chalData[8..] == mac(key, chalData[..8])
    case ResponseMsg(acc, ctrl, respData) =>
      exists key: Key, salt: Salt, index: U32 ::
        AccessoryLinked(acc, ctrl, key, salt, index) in log && respData == mac(key, Inverted(salt))
  }

  ghost predicate NetOk(mac: Mac, s: System) {
    forall m :: m in s.net ==> MsgOk(mac, s.log, m)
  }

  ghost predicate SystemInv(mac: Mac, keys: OriginKeys, s: System) {
    DevicesOk(s) && LogOk(mac, keys, s.log) && IndicesConsumed(s) && ClientsOk(mac, s) && NetOk(mac, s)
  }

  // ---------------------------------------------------------------- the log grows

  lemma LogGrows(mac: Mac, keys: OriginKeys, log: seq<Entry>, e: Entry)
    requires LogOk(mac, keys, log) && Justified(mac, keys, log, e)
    ensures LogOk(mac, keys, log + [e])
  {
    hide Justified;
    forall p | 0 <= p < |log + [e]| ensures Justified(mac, keys, (log + [e])[..p], (log + [e])[p]) {
      if p < |log| {
        assert (log + [e])[..p] == log[..p];
      } else {
        assert (log + [e])[..p] == log;
      }
    }
  }

  lemma StartedStays(mac: Mac, log: seq<Entry>, e: Entry, ctrl: NxId, salt: Salt, key: Key)
    requires WasStarted(mac, log, ctrl, salt, key)
    ensures WasStarted(mac, log + [e], ctrl, salt, key)
  {
    hide LinkKey;
    var challenge: U32 :| Started(ctrl, challenge, salt) in log && key == LinkKey(mac, challenge, salt);
    assert Started(ctrl, challenge, salt) in log + [e];
  }

  lemma ClientStays(mac: Mac, log: seq<Entry>, e: Entry, ctrl: NxId, c: Client)
    requires ClientOk(mac, log, ctrl, c)
    ensures ClientOk(mac, log + [e], ctrl, c)
  {
    hide WasStarted;
    if c.active { StartedStays(mac, log, e, ctrl, c.salt, c.key); }
  }

  lemma MsgStays(mac: Mac, log: seq<Entry>, e: Entry, m: Msg)
    requires MsgOk(mac, log, m)
    ensures MsgOk(mac, log + [e], m)
  {
    hide WasStarted;
    match m
    case ChallengeMsg(ctrl, chalData) =>
      var key: Key :| WasStarted(mac, log, ctrl, chalData[..8], key) && chalData[8..] == mac(key, chalData[..8]);
      StartedStays(mac, log, e, ctrl, chalData[..8], key);
    case ResponseMsg(acc, ctrl, respData) =>
      var key: Key, salt: Salt, index: U32 :|
        AccessoryLinked(acc, ctrl, key, salt, index) in log && respData == mac(key, Inverted(salt));
      assert AccessoryLinked(acc, ctrl, key, salt, index) in log + [e];
  }

  lemma OthersStay(mac: Mac, s: System, e: Entry)
    requires ClientsOk(mac, s) && NetOk(mac, s)
    ensures ClientsOk(mac, s.(log := s.log + [e])) && NetOk(mac, s.(log := s.log + [e]))
  {
    hide ClientOk, MsgOk;
    forall c, i | c in s.ctrls && 0 <= i < |s.ctrls[c].clients| ensures ClientOk(mac, s.log + [e], c, s.ctrls[c].clients[i]) {
      ClientStays(mac, s.log, e, c, s.ctrls[c].clients[i]);
    }
    forall m | m in s.net ensures MsgOk(mac, s.log + [e], m) {
      MsgStays(mac, s.log, e, m);
    }
  }

  // ---------------------------------------------------------------- each step keeps the invariant

  lemma FreshClientOk(mac: Mac, log: seq<Entry>, ctrl: NxId, challenge: U32, salt: Salt)
    ensures ClientOk(mac, log + [Started(ctrl, challenge, salt)], ctrl, Challenge(mac, challenge, salt))
  {
    assert Started(ctrl, challenge, salt) in log + [Started(ctrl, challenge, salt)];
  }

  lemma StartKeeps(mac: Mac, keys: OriginKeys, s: System, ctrl: NxId, i: nat, client: Client, entry: Entry)
    requires SystemInv(mac, keys, s) && ctrl in s.ctrls && i < |s.ctrls[ctrl].clients| && entry.Started?
    requires LogOk(mac, keys, s.log + [entry]) && ClientOk(mac, s.log + [entry], ctrl, client)
    ensures var c := s.ctrls[ctrl];
      SystemInv(mac, keys, s.(ctrls := s.ctrls[ctrl := c.(clients := c.clients[i := client])], log := s.log + [entry]))
  {
    hide ClientOk, MsgOk, LogOk, AccessoryInv, Inv, Consumed;
    OthersStay(mac, s, entry);
  }

  lemma CommandInv(mac: Mac, keys: OriginKeys, s: System, e: Event)
    requires SystemInv(mac, keys, s) && e.Command? && e.ctrl in s.ctrls
    ensures SystemInv(mac, keys, OnCommand(mac, s, e))
  {
    hide SystemInv, LogOk, ClientOk, Challenge;
    var idle := FirstIdleFrom(s.ctrls[e.ctrl].clients, 0);
    if idle.Some? {
      var entry := Started(e.ctrl, e.challenge, e.salt);
      StartedIsJustified(mac, keys, s, entry);
      FreshClientOk(mac, s.log, e.ctrl, e.challenge, e.salt);
      StartKeeps(mac, keys, s, e.ctrl, idle.value, Challenge(mac, e.challenge, e.salt), entry);
    } else {
      assert OnCommand(mac, s, e) == s;
    }
  }

  lemma StartedIsJustified(mac: Mac, keys: OriginKeys, s: System, entry: Entry)
    requires SystemInv(mac, keys, s) && entry.Started?
    ensures LogOk(mac, keys, s.log + [entry])
  {
    LogGrows(mac, keys, s.log, entry);
  }

  lemma EntryIsAnswered(mac: Mac, keys: OriginKeys, s: System, msg: Msg, acc: NxId)
    requires SystemInv(mac, keys, s) && msg in s.net && msg.ChallengeMsg? && acc in s.accs
    ensures var accepted := ServerPost(mac, keys(acc), s.accs[acc], msg.ctrl, Request(msg.chalData)).2;
      accepted.Some? ==>
        Answered(mac, keys, s.log, AccessoryLinked(acc, msg.ctrl, accepted.value.key, accepted.value.salt, accepted.value.index))
  {
    assert MsgOk(mac, s.log, msg) && AccessoryInv(s.accs[acc]);
    AnsweredChallenge(mac, keys(acc), s.accs[acc], msg.ctrl, msg.chalData);
    hide AccessoryInv, ServerPost, Request, WasStarted, ClientsOk, LogOk, Consumed, LinkKey, ChallengeInt, NetOk, DevicesOk;
  }

  lemma AccessoryAfter(mac: Mac, keys: OriginKeys, s: System, from: NxId, chalData: ChalData, acc: NxId)
    requires DevicesOk(s) && IndicesConsumed(s) && acc in s.accs
    ensures var a' := ServerPost(mac, keys(acc), s.accs[acc], from, Request(chalData)).0;
      AccessoryInv(a') && forall e :: e in s.log && e.AccessoryLinked? && e.acc == acc ==> Consumed(a'.window, e.index)
  {
    var a := s.accs[acc];
    assert AccessoryInv(a);
    hide AccessoryInv, ServerPost, Consumed;
    ServerPostInv(mac, keys(acc), a, from, Request(chalData), 0);
    forall e | e in s.log && e.AccessoryLinked? && e.acc == acc
      ensures Consumed(ServerPost(mac, keys(acc), a, from, Request(chalData)).0.window, e.index)
    {
      ServerPostInv(mac, keys(acc), a, from, Request(chalData), e.index);
    }
  }

  lemma ChallengeInv(mac: Mac, keys: OriginKeys, s: System, msg: Msg, acc: NxId)
    requires SystemInv(mac, keys, s) && msg in s.net && msg.ChallengeMsg? && acc in s.accs
    ensures SystemInv(mac, keys, OnChallenge(mac, keys, s, msg, acc))
  {
    var a := s.accs[acc];
    assert AccessoryInv(a);
    AccessoryAfter(mac, keys, s, msg.ctrl, msg.chalData, acc);
    EntryIsAnswered(mac, keys, s, msg, acc);
    ServerPostInv(mac, keys(acc), a, msg.ctrl, Request(msg.chalData), 0);
    AnsweredChallenge(mac, keys(acc), a, msg.ctrl, msg.chalData);
    hide ServerPost, Request, Inv, Consumed, LinkKey, ChallengeInt, Answered, ClientOk, ClientsOk;
    var (a', reply, accepted) := ServerPost(mac, keys(acc), a, msg.ctrl, Request(msg.chalData));
    if accepted.Some? {
      var entry := AccessoryLinked(acc, msg.ctrl, accepted.value.key, accepted.value.salt, accepted.value.index);
      LogGrows(mac, keys, s.log, entry);
      OthersStay(mac, s, entry);
      ResponseOk(mac, s.log, entry);
      AnswerKeeps(mac, keys, s, a', entry, ResponseMsg(acc, msg.ctrl, reply.respData));
    } else {
      RefusalKeeps(mac, keys, s, a', acc);
    }
  }

  lemma ResponseOk(mac: Mac, log: seq<Entry>, e: Entry)
    requires e.AccessoryLinked?
    ensures MsgOk(mac, log + [e], ResponseMsg(e.acc, e.ctrl, mac(e.key, Inverted(e.salt))))
  {
    assert AccessoryLinked(e.acc, e.ctrl, e.key, e.salt, e.index) in log + [e];
  }

  lemma AnswerDevices(s: System, a: AccessoryDevice, e: Entry)
    requires e.AccessoryLinked? && AccessoryInv(a) && Consumed(a.window, e.index)
    requires forall f :: f in s.log && f.AccessoryLinked? && f.acc == e.acc ==> Consumed(a.window, f.index)
    requires e.acc in s.accs && DevicesOk(s) && IndicesConsumed(s)
    ensures var s' := s.(accs := s.accs[e.acc := a], log := s.log + [e]); DevicesOk(s') && IndicesConsumed(s')
  {
    assert Formed(a.window);
    hide AccessoryInv, Consumed, Inv, Formed;
  }

  lemma AnswerMessages(mac: Mac, s: System, a: AccessoryDevice, e: Entry, acc: NxId, msg: Msg)
    requires MsgOk(mac, s.log + [e], msg)
    requires ClientsOk(mac, s.(log := s.log + [e])) && NetOk(mac, s.(log := s.log + [e]))
    ensures var s' := s.(accs := s.accs[acc := a], net := s.net + {msg}, log := s.log + [e]); ClientsOk(mac, s') && NetOk(mac, s')
  {
    hide MsgOk, ClientOk;
  }

  lemma AnswerKeeps(mac: Mac, keys: OriginKeys, s: System, a: AccessoryDevice, e: Entry, msg: Msg)
    requires e.AccessoryLinked? && AccessoryInv(a) && Consumed(a.window, e.index)
    requires forall f :: f in s.log && f.AccessoryLinked? && f.acc == e.acc ==> Consumed(a.window, f.index)
    requires LogOk(mac, keys, s.log + [e]) && MsgOk(mac, s.log + [e], msg)
    requires ClientsOk(mac, s.(log := s.log + [e])) && NetOk(mac, s.(log := s.log + [e]))
    requires e.acc in s.accs && SystemInv(mac, keys, s)
    ensures SystemInv(mac, keys, s.(accs := s.accs[e.acc := a], net := s.net + {msg}, log := s.log + [e]))
  {
    hide AccessoryInv, Consumed, ClientsOk, NetOk, MsgOk, LogOk, Inv, Formed;
    AnswerDevices(s, a, e);
    AnswerMessages(mac, s, a, e, e.acc, msg);
    var s' := s.(accs := s.accs[e.acc := a], log := s.log + [e]);
    assert DevicesOk(s'.(net := s.net + {msg})) && IndicesConsumed(s'.(net := s.net + {msg}));
  }

  lemma RefusalKeeps(mac: Mac, keys: OriginKeys, s: System, a: AccessoryDevice, acc: NxId)
    requires SystemInv(mac, keys, s) && acc in s.accs && AccessoryInv(a)
    requires forall f :: f in s.log && f.AccessoryLinked? && f.acc == acc ==> Consumed(a.window, f.index)
    ensures SystemInv(mac, keys, s.(accs := s.accs[acc := a]))
  {
    assert Formed(a.window);
    hide AccessoryInv, Consumed, MsgOk, ClientOk, LogOk, Inv, Formed;
  }

  lemma LinkIsConfirmed(mac: Mac, s: System, msg: Msg, i: nat)
    requires NetOk(mac, s) && ClientsOk(mac, s) && msg in s.net && msg.ResponseMsg? && msg.ctrl in s.ctrls
    requires i < |s.ctrls[msg.ctrl].clients|
    requires var client := s.ctrls[msg.ctrl].clients[i]; mac(client.key, Inverted(client.salt)) == msg.respData
    ensures var client := s.ctrls[msg.ctrl].clients[i];
      Confirmed(mac, s.log, ControllerLinked(msg.ctrl, msg.acc, client.key, client.salt))
  {
    assert MsgOk(mac, s.log, msg);
    assert ClientOk(mac, s.log, msg.ctrl, s.ctrls[msg.ctrl].clients[i]);
    hide NetOk, ClientsOk, WasStarted;
  }

  lemma ClientsKept(mac: Mac, keys: OriginKeys, s: System, ctrl: NxId, c: ControllerDevice)
    requires SystemInv(mac, keys, s) && ctrl in s.ctrls && Inv(c.table) && |c.clients| == CLIENTS
    requires forall i :: 0 <= i < |c.clients| ==> ClientOk(mac, s.log, ctrl, c.clients[i])
    ensures SystemInv(mac, keys, s.(ctrls := s.ctrls[ctrl := c]))
  {
    hide AccessoryInv, Consumed, MsgOk, ClientOk, LogOk, Inv, Formed;
  }

  lemma EntryAdded(mac: Mac, keys: OriginKeys, s: System, e: Entry)
    requires SystemInv(mac, keys, s) && !e.AccessoryLinked? && Justified(mac, keys, s.log, e)
    ensures SystemInv(mac, keys, s.(log := s.log + [e]))
  {
    LogGrows(mac, keys, s.log, e);
    OthersStay(mac, s, e);
    hide AccessoryInv, Consumed, LogOk, Inv, Formed, ClientsOk, NetOk, Justified;
  }

  lemma ResponseInv(mac: Mac, keys: OriginKeys, s: System, msg: Msg, i: nat)
    requires SystemInv(mac, keys, s) && msg in s.net && msg.ResponseMsg? && msg.ctrl in s.ctrls && i < CLIENTS
    ensures SystemInv(mac, keys, OnResponse(mac, s, msg, i))
  {
    var c := s.ctrls[msg.ctrl];
    assert MsgOk(mac, s.log, msg);
    TakenResponse(mac, c, i, msg.acc, msg.respData);
    var c' := ClientPost(mac, c, i, msg.acc, true, [BytesRep("rD", msg.respData)]);
    forall k | 0 <= k < |c'.clients| ensures ClientOk(mac, s.log, msg.ctrl, c'.clients[k]) {
      assert ClientOk(mac, s.log, msg.ctrl, c.clients[k]);
    }
    hide ClientOk, ClientPost, Inv, MsgOk, LogOk, Confirmed, IndicesConsumed;
    ClientsKept(mac, keys, s, msg.ctrl, c');
    if Queued(c.table, c'.table) {
      LinkIsConfirmed(mac, s, msg, i);
      EntryAdded(mac, keys, s.(ctrls := s.ctrls[msg.ctrl := c']),
                 ControllerLinked(msg.ctrl, msg.acc, c.clients[i].key, c.clients[i].salt));
    }
  }

  lemma PostsOk(mac: Mac, log: seq<Entry>, ctrl: NxId, clients: seq<Client>, dt: U32, m: Msg)
    requires forall i :: 0 <= i < |clients| ==> ClientOk(mac, log, ctrl, clients[i])
    requires m in set i | 0 <= i < |clients| && TickClient(clients[i], dt).1 :: ChallengeMsg(ctrl, clients[i].chalData)
    ensures MsgOk(mac, log, m)
  {
    hide ClientOk, MsgOk, TickClient;
    var i :| 0 <= i < |clients| && TickClient(clients[i], dt).1 && m == ChallengeMsg(ctrl, clients[i].chalData);
    TickedClient(mac, log, ctrl, clients[i], dt);
  }

  lemma TickedClientsOk(mac: Mac, log: seq<Entry>, ctrl: NxId, clients: seq<Client>, dt: U32)
    requires forall i :: 0 <= i < |clients| ==> ClientOk(mac, log, ctrl, clients[i])
    ensures forall i :: 0 <= i < |clients| ==> ClientOk(mac, log, ctrl, Ticked(clients, dt)[i])
  {
    hide ClientOk, TickClient, MsgOk;
    forall i | 0 <= i < |clients| ensures ClientOk(mac, log, ctrl, Ticked(clients, dt)[i]) {
      TickedClient(mac, log, ctrl, clients[i], dt);
    }
  }

  lemma NetGrows(mac: Mac, keys: OriginKeys, s: System, sent: set<Msg>)
    requires SystemInv(mac, keys, s) && forall m :: m in sent ==> MsgOk(mac, s.log, m)
    ensures SystemInv(mac, keys, s.(net := s.net + sent))
  {
    hide AccessoryInv, Consumed, MsgOk, ClientOk, LogOk, Inv, Formed;
  }

  lemma TickControllerInv(mac: Mac, keys: OriginKeys, s: System, ctrl: NxId, dt: U32)
    requires SystemInv(mac, keys, s) && ctrl in s.ctrls
    ensures SystemInv(mac, keys, OnTickController(s, ctrl, dt))
  {
    var c := s.ctrls[ctrl];
    ProcessInv(c.table, dt);
    TickedClientsOk(mac, s.log, ctrl, c.clients, dt);
    var sent := set i | 0 <= i < |c.clients| && TickClient(c.clients[i], dt).1 :: ChallengeMsg(ctrl, c.clients[i].chalData);
    forall m | m in sent ensures MsgOk(mac, s.log, m) {
      PostsOk(mac, s.log, ctrl, c.clients, dt, m);
    }
    hide ClientOk, Inv, SystemInv, Links.Process, TickClient, MsgOk;
    ClientsKept(mac, keys, s, ctrl, ControllerDevice(Ticked(c.clients, dt), Links.Process(c.table, dt)));
    NetGrows(mac, keys, s.(ctrls := s.ctrls[ctrl := ControllerDevice(Ticked(c.clients, dt), Links.Process(c.table, dt))]), sent);
  }

  lemma TickedClient(mac: Mac, log: seq<Entry>, ctrl: NxId, c: Client, dt: U32)
    requires ClientOk(mac, log, ctrl, c)
    ensures ClientOk(mac, log, ctrl, TickClient(c, dt).0)
    ensures TickClient(c, dt).1 ==> MsgOk(mac, log, ChallengeMsg(ctrl, c.chalData))
  {
    hide WasStarted;
    if c.active {
      assert c.chalData[..8] == c.salt && c.chalData[8..] == mac(c.key, c.salt);
    }
  }

  lemma AccessoryKept(mac: Mac, keys: OriginKeys, s: System, acc: NxId, a: AccessoryDevice)
    requires SystemInv(mac, keys, s) && acc in s.accs && AccessoryInv(a) && a.window == s.accs[acc].window
    ensures SystemInv(mac, keys, s.(accs := s.accs[acc := a]))
  {
    assert AccessoryInv(s.accs[acc]);
    RefusalKeeps(mac, keys, s, a, acc);
  }

  /** Every step keeps the invariant. */
  lemma NextInv(mac: Mac, keys: OriginKeys, s: System, e: Event)
    requires SystemInv(mac, keys, s)
    ensures SystemInv(mac, keys, Next(mac, keys, s, e))
  {
    hide SystemInv, AccessoryInv, Inv, OnCommand, OnChallenge, OnResponse, OnTickController;
    match e
    case Command(ctrl, _, _) => if ctrl in s.ctrls { CommandInv(mac, keys, s, e); }
    case DeliverChallenge(msg, acc) =>
      if msg in s.net && msg.ChallengeMsg? && acc in s.accs { ChallengeInv(mac, keys, s, msg, acc); }
    case DeliverResponse(msg, i) =>
      if msg in s.net && msg.ResponseMsg? && msg.ctrl in s.ctrls && i < CLIENTS { ResponseInv(mac, keys, s, msg, i); }
    case TickController(ctrl, dt) => if ctrl in s.ctrls { TickControllerInv(mac, keys, s, ctrl, dt); }
    case TickAccessory(acc, dt) => if acc in s.accs { TickAccessoryInv(mac, keys, s, acc, dt); }
    case RestartController(ctrl) => if ctrl in s.ctrls { RestartControllerInv(mac, keys, s, ctrl); }
    case RestartAccessory(acc) => if acc in s.accs { RestartAccessoryInv(mac, keys, s, acc); }
  }

  lemma TickAccessoryInv(mac: Mac, keys: OriginKeys, s: System, acc: NxId, dt: U32)
    requires SystemInv(mac, keys, s) && acc in s.accs
    ensures SystemInv(mac, keys, Next(mac, keys, s, TickAccessory(acc, dt)))
  {
    var a := s.accs[acc];
    assert AccessoryInv(a);
    ProcessInv(a.table, dt);
    hide SystemInv, Inv, Links.Process;
    AccessoryKept(mac, keys, s, acc, a.(server := ServerProcess(a.server, dt), table := Links.Process(a.table, dt)));
  }

  lemma RestartAccessoryInv(mac: Mac, keys: OriginKeys, s: System, acc: NxId)
    requires SystemInv(mac, keys, s) && acc in s.accs
    ensures SystemInv(mac, keys, Next(mac, keys, s, RestartAccessory(acc)))
  {
    var a := s.accs[acc];
    assert AccessoryInv(a);
    RebootRestores(a.table);
    hide SystemInv, Inv, Links.Init;
    AccessoryKept(mac, keys, s, acc, Handshake.RestartAccessory(a));
  }

  lemma RestartControllerInv(mac: Mac, keys: OriginKeys, s: System, ctrl: NxId)
    requires SystemInv(mac, keys, s) && ctrl in s.ctrls
    ensures SystemInv(mac, keys, Next(mac, keys, s, RestartController(ctrl)))
  {
    RebootRestores(s.ctrls[ctrl].table);
    var c := ControllerDevice(seq(CLIENTS, _ => ZERO_CLIENT), Links.Init(s.ctrls[ctrl].table.nv));
    assert forall i :: 0 <= i < |c.clients| ==> ClientOk(mac, s.log, ctrl, c.clients[i]);
    hide SystemInv, Inv, Links.Init, ClientOk;
    ClientsKept(mac, keys, s, ctrl, c);
  }

  // ---------------------------------------------------------------- runs

  /** Devices with any links, idle handshakes, and nothing sent or logged yet. */
  ghost predicate Fresh(s: System) {
    && DevicesOk(s) && s.net == {} && s.log == []
    && forall c :: c in s.ctrls ==> forall i :: 0 <= i < |s.ctrls[c].clients| ==> s.ctrls[c].clients[i] == ZERO_CLIENT
  }

  ghost function Run(mac: Mac, keys: OriginKeys, s: System, es: seq<Event>): (r: System)
    requires Fresh(s)
    ensures SystemInv(mac, keys, r)
  {
    if es == [] then s
    else
      var before := Run(mac, keys, s, es[..|es| - 1]);
      NextInv(mac, keys, before, es[|es| - 1]);
      Next(mac, keys, before, es[|es| - 1])
  }

  /** A link key and salt some device computed check values with; idle slots hold zeros. */
  ghost predicate Computed(mac: Mac, log: seq<Entry>, key: Key, salt: Salt) {
    || (key == ZERO_KEY && salt == ZERO_SALT)
    || (exists ctrl: NxId :: WasStarted(mac, log, ctrl, salt, key))
    || (exists acc: NxId, ctrl: NxId, index: U32 :: AccessoryLinked(acc, ctrl, key, salt, index) in log)
  }

  /** Among the keys and salts of this run, different ones have different check values. */
  ghost predicate NoCollisions(mac: Mac, log: seq<Entry>) {
    forall k1: Key, s1: Salt, k2: Key, s2: Salt :: Computed(mac, log, k1, s1) && Computed(mac, log, k2, s2) ==>
      && (mac(k1, s1) == mac(k2, s2) ==> k1 == k2 && s1 == s2)
      && (mac(k1, Inverted(s1)) == mac(k2, Inverted(s2)) ==> k1 == k2 && s1 == s2)
  }

  lemma ComputedStays(mac: Mac, log: seq<Entry>, n: nat, key: Key, salt: Salt)
    requires n <= |log| && Computed(mac, log[..n], key, salt)
    ensures Computed(mac, log, key, salt)
  {
    hide LinkKey;
    if ctrl: NxId :| WasStarted(mac, log[..n], ctrl, salt, key) {
      var challenge: U32 :| Started(ctrl, challenge, salt) in log[..n] && key == LinkKey(mac, challenge, salt);
      assert Started(ctrl, challenge, salt) in log;
      assert WasStarted(mac, log, ctrl, salt, key);
    } else if acc: NxId, ctrl: NxId, index: U32 :| AccessoryLinked(acc, ctrl, key, salt, index) in log[..n] {
      assert AccessoryLinked(acc, ctrl, key, salt, index) in log;
    }
  }

  /** Every link a controller queued was queued before by that accessory, under the same key and salt. */
  ghost predicate ControllersConfirmed(log: seq<Entry>) {
    forall p :: 0 <= p < |log| && log[p].ControllerLinked? ==> ConfirmedEarlier(log, p)
  }

  ghost predicate ConfirmedEarlier(log: seq<Entry>, p: nat)
    requires p < |log| && log[p].ControllerLinked?
  {
    exists q: nat, index: U32 :: q < p && log[q] == AccessoryLinked(log[p].acc, log[p].ctrl, log[p].key, log[p].salt, index)
  }

  /**
   * Every link an accessory queued has a handshake of that controller before it whose digits give the
   * same key, which is the key of the index the accessory used up.
   */
  ghost predicate AccessoriesAnswered(mac: Mac, keys: OriginKeys, log: seq<Entry>) {
    forall p :: 0 <= p < |log| && log[p].AccessoryLinked? ==>
      && log[p].key == LinkKey(mac, ChallengeInt(mac, keys(log[p].acc), log[p].index), log[p].salt)
      && StartedEarlier(mac, log, p)
  }

  ghost predicate StartedEarlier(mac: Mac, log: seq<Entry>, p: nat)
    requires p < |log| && log[p].AccessoryLinked?
  {
    exists q: nat, challenge: U32 ::
      q < p && log[q] == Started(log[p].ctrl, challenge, log[p].salt) && LinkKey(mac, challenge, log[p].salt) == log[p].key
  }

  /** No accessory queued two links for one handshake index. */
  ghost predicate IndicesUsedOnce(log: seq<Entry>) {
    forall p, q :: 0 <= p < q < |log| && log[p].AccessoryLinked? && log[q].AccessoryLinked? && log[p].acc == log[q].acc ==>
      log[p].index != log[q].index
  }

  lemma ConfirmedLink(mac: Mac, keys: OriginKeys, log: seq<Entry>, p: nat)
    requires LogOk(mac, keys, log) && NoCollisions(mac, log) && p < |log| && log[p].ControllerLinked?
    ensures ConfirmedEarlier(log, p)
  {
    var e := log[p];
    assert Justified(mac, keys, log[..p], e);
    hide WasStarted, NoCollisions;
    var key: Key, salt: Salt, index: U32 :|
      AccessoryLinked(e.acc, e.ctrl, key, salt, index) in log[..p] && mac(key, Inverted(salt)) == mac(e.key, Inverted(e.salt));
    ComputedStays(mac, log, p, key, salt);
    ComputedStays(mac, log, p, e.key, e.salt);
    SameComputed(mac, log, key, salt, e.key, e.salt);
    var q :| 0 <= q < p && log[q] == AccessoryLinked(e.acc, e.ctrl, key, salt, index);
  }

  lemma SameComputed(mac: Mac, log: seq<Entry>, k1: Key, s1: Salt, k2: Key, s2: Salt)
    requires NoCollisions(mac, log) && Computed(mac, log, k1, s1) && Computed(mac, log, k2, s2)
    requires mac(k1, Inverted(s1)) == mac(k2, Inverted(s2)) || mac(k1, s1) == mac(k2, s2)
    ensures k1 == k2 && s1 == s2
  {
    hide Computed;
  }

  lemma AnsweredLink(mac: Mac, keys: OriginKeys, log: seq<Entry>, p: nat)
    requires LogOk(mac, keys, log) && NoCollisions(mac, log) && p < |log| && log[p].AccessoryLinked?
    ensures log[p].key == LinkKey(mac, ChallengeInt(mac, keys(log[p].acc), log[p].index), log[p].salt)
    ensures StartedEarlier(mac, log, p)
  {
    var e := log[p];
    assert Justified(mac, keys, log[..p], e);
    hide NoCollisions, LinkKey, ChallengeInt;
    var key: Key :| WasStarted(mac, log[..p], e.ctrl, e.salt, key) && mac(key, e.salt) == mac(e.key, e.salt);
    ComputedStays(mac, log, p, key, e.salt);
    assert AccessoryLinked(e.acc, e.ctrl, e.key, e.salt, e.index) in log;
    SameComputed(mac, log, key, e.salt, e.key, e.salt);
    var challenge: U32 :| Started(e.ctrl, challenge, e.salt) in log[..p] && key == LinkKey(mac, challenge, e.salt);
    var q :| 0 <= q < p && log[q] == Started(e.ctrl, challenge, e.salt);
  }

  /** Both agreements hold over every run in which check values do not collide. */
  lemma HandshakesAgree(mac: Mac, keys: OriginKeys, s: System, es: seq<Event>)
    requires Fresh(s)
    ensures var log := Run(mac, keys, s, es).log;
      NoCollisions(mac, log) ==> ControllersConfirmed(log) && AccessoriesAnswered(mac, keys, log)
  {
    var log := Run(mac, keys, s, es).log;
    assert LogOk(mac, keys, log);
    hide Run, LogOk, NoCollisions, ConfirmedEarlier, StartedEarlier, LinkKey, ChallengeInt, Fresh;
    if NoCollisions(mac, log) {
      forall p | 0 <= p < |log| && log[p].ControllerLinked? ensures ConfirmedEarlier(log, p) {
        ConfirmedLink(mac, keys, log, p);
      }
      forall p | 0 <= p < |log| && log[p].AccessoryLinked?
        ensures log[p].key == LinkKey(mac, ChallengeInt(mac, keys(log[p].acc), log[p].index), log[p].salt)
        ensures StartedEarlier(mac, log, p)
      {
        AnsweredLink(mac, keys, log, p);
      }
    }
  }

  // ---------------------------------------------------------------- one handshake, one key

  /** Digits and a salt that a link key of this run was derived from. */
  ghost predicate Derived(mac: Mac, keys: OriginKeys, log: seq<Entry>, challenge: U32, salt: Salt) {
    exists p :: 0 <= p < |log| && log[p].AccessoryLinked? && log[p].salt == salt
      && challenge == ChallengeInt(mac, keys(log[p].acc), log[p].index)
  }

  /** The key derivation does not collide on the digits and salts of this run. */
  ghost predicate NoDerivationCollisions(mac: Mac, keys: OriginKeys, log: seq<Entry>) {
    forall c1: U32, s1: Salt, c2: U32, s2: Salt :: Derived(mac, keys, log, c1, s1) && Derived(mac, keys, log, c2, s2) ==>
      !DerivationCollides(mac, c1, s1, c2, s2)
  }

  predicate IsLink(e: Entry) {
    e.AccessoryLinked? || e.ControllerLinked?
  }

  /** Two links have the same key only if they have the same salt and, at accessories, indices with the same digits. */
  ghost predicate KeysTellApart(mac: Mac, keys: OriginKeys, log: seq<Entry>) {
    && (forall p, q :: 0 <= p < q < |log| && IsLink(log[p]) && IsLink(log[q]) && log[p].key == log[q].key ==>
          log[p].salt == log[q].salt)
    && (forall p, q :: 0 <= p < q < |log| && log[p].AccessoryLinked? && log[q].AccessoryLinked? && log[p].key == log[q].key ==>
          ChallengeInt(mac, keys(log[p].acc), log[p].index) == ChallengeInt(mac, keys(log[q].acc), log[q].index))
  }

  /** The digits a link's key was derived from. */
  lemma LinkIsDerived(mac: Mac, keys: OriginKeys, log: seq<Entry>, p: nat) returns (challenge: U32)
    requires ControllersConfirmed(log) && AccessoriesAnswered(mac, keys, log) && p < |log| && IsLink(log[p])
    ensures Derived(mac, keys, log, challenge, log[p].salt) && log[p].key == LinkKey(mac, challenge, log[p].salt)
    ensures log[p].AccessoryLinked? ==> challenge == ChallengeInt(mac, keys(log[p].acc), log[p].index)
  {
    hide LinkKey, ChallengeInt, StartedEarlier;
    var a := p;
    if log[p].ControllerLinked? {
      assert ConfirmedEarlier(log, p);
      var q: nat, index: U32 :| q < p && log[q] == AccessoryLinked(log[p].acc, log[p].ctrl, log[p].key, log[p].salt, index);
      a := q;
    }
    challenge := ChallengeInt(mac, keys(log[a].acc), log[a].index);
  }

  /**
   * Over every run in which neither check values nor the derivation collide: links under different salts have
   * different keys, even for the same digits, and so do links of accessories for different digits.
   */
  lemma LinkKeysTellApart(mac: Mac, keys: OriginKeys, s: System, es: seq<Event>)
    requires Fresh(s)
    ensures var log := Run(mac, keys, s, es).log;
      NoCollisions(mac, log) && NoDerivationCollisions(mac, keys, log) ==> KeysTellApart(mac, keys, log)
  {
    hide Run, NoCollisions, ControllersConfirmed, AccessoriesAnswered, LinkKey, ChallengeInt, Fresh, Derived, DerivationCollides;
    var log := Run(mac, keys, s, es).log;
    HandshakesAgree(mac, keys, s, es);
    if NoCollisions(mac, log) && NoDerivationCollisions(mac, keys, log) {
      forall p, q | 0 <= p < q < |log| && IsLink(log[p]) && IsLink(log[q]) && log[p].key == log[q].key
        ensures log[p].salt == log[q].salt
        ensures log[p].AccessoryLinked? && log[q].AccessoryLinked? ==>
          ChallengeInt(mac, keys(log[p].acc), log[p].index) == ChallengeInt(mac, keys(log[q].acc), log[q].index)
      {
        var c1 := LinkIsDerived(mac, keys, log, p);
        var c2 := LinkIsDerived(mac, keys, log, q);
        LinkKeyInjective(mac, c1, log[p].salt, c2, log[q].salt);
      }
    }
  }

  // ---------------------------------------------------------------- each index once

  /** A challenge does not meet a window that ends at UINT32_MAX and holds no usable index answering it. */
  predicate IndexLeft(mac: Mac, originKey: Key, w: Window, msg: Msg) {
    msg.ChallengeMsg? && Formed(w) && AtTop(w) ==>
      Least(w, IndexCheck(mac, originKey, msg.chalData[..8], msg.chalData[8..])).Some?
  }

  ghost predicate IndicesLeft(mac: Mac, keys: OriginKeys, s: System, es: seq<Event>)
    requires Fresh(s)
  {
    forall n :: 0 <= n < |es| && es[n].DeliverChallenge? && es[n].acc in s.accs ==>
      IndexLeft(mac, keys(es[n].acc), WindowAfter(mac, keys, s, es[..n], es[n].acc), es[n].msg)
  }

  ghost function WindowAfter(mac: Mac, keys: OriginKeys, s: System, es: seq<Event>, acc: NxId): (r: Window)
    requires Fresh(s) && acc in s.accs
  {
    SameDevices(mac, keys, s, es);
    Run(mac, keys, s, es).accs[acc].window
  }

  lemma {:induction false} SameDevices(mac: Mac, keys: OriginKeys, s: System, es: seq<Event>)
    requires Fresh(s)
    ensures Run(mac, keys, s, es).accs.Keys == s.accs.Keys
  {
    hide ServerPost, Links.Process, SystemInv, DevicesOk;
    if es != [] {
      SameDevices(mac, keys, s, es[..|es| - 1]);
      assert SystemInv(mac, keys, Run(mac, keys, s, es[..|es| - 1]));
    }
  }

  /** At most one entry more, and a link only for an index that accessory has no link for. */
  ghost predicate FreshStep(before: seq<Entry>, after: seq<Entry>) {
    || after == before
    || (exists e: Entry :: after == before + [e] &&
          forall f :: f in before && f.AccessoryLinked? && e.AccessoryLinked? && f.acc == e.acc ==> f.index != e.index)
  }

  lemma FreshStepKeeps(before: seq<Entry>, after: seq<Entry>)
    requires IndicesUsedOnce(before) && FreshStep(before, after)
    ensures IndicesUsedOnce(after)
  {
    if after != before {
      var e: Entry :| after == before + [e] &&
        forall f :: f in before && f.AccessoryLinked? && e.AccessoryLinked? && f.acc == e.acc ==> f.index != e.index;
    }
  }

  lemma ChallengeStep(mac: Mac, keys: OriginKeys, s: System, msg: Msg, acc: NxId)
    requires DevicesOk(s) && IndicesConsumed(s) && msg.ChallengeMsg? && acc in s.accs
    requires IndexLeft(mac, keys(acc), s.accs[acc].window, msg)
    ensures FreshStep(s.log, OnChallenge(mac, keys, s, msg, acc).log)
  {
    var a := s.accs[acc];
    assert AccessoryInv(a);
    ServerPostInv(mac, keys(acc), a, msg.ctrl, Request(msg.chalData), 0);
    RequestAnswers(mac, keys(acc), a, msg.chalData);
    hide AccessoryInv, Inv, ServerPost, Consumed, Within, AtTop, Request, Least, IndexCheck, Answers, ValidPayload;
    var accepted := ServerPost(mac, keys(acc), a, msg.ctrl, Request(msg.chalData)).2;
    if accepted.Some? {
      var e := AccessoryLinked(acc, msg.ctrl, accepted.value.key, accepted.value.salt, accepted.value.index);
      assert OnChallenge(mac, keys, s, msg, acc).log == s.log + [e];
    }
  }

  lemma StepUsesFreshIndex(mac: Mac, keys: OriginKeys, s: System, e: Event)
    requires SystemInv(mac, keys, s)
    requires e.DeliverChallenge? && e.acc in s.accs ==> IndexLeft(mac, keys(e.acc), s.accs[e.acc].window, e.msg)
    ensures FreshStep(s.log, Next(mac, keys, s, e).log)
  {
    if e.DeliverChallenge? && e.msg in s.net && e.msg.ChallengeMsg? && e.acc in s.accs {
      hide OnChallenge;
      ChallengeStep(mac, keys, s, e.msg, e.acc);
    } else {
      hide ClientPost, OnTickController, SystemInv, ClientsOk, NetOk, LogOk, IndexLeft, ServerPost;
      var log := Next(mac, keys, s, e).log;
      assert e.TickController? && e.ctrl in s.ctrls ==> OnTickController(s, e.ctrl, e.dt).log == s.log by { TickLogs(s, e); }
      assert log == s.log || log == s.log + [log[|s.log|]];
    }
  }

  lemma TickLogs(s: System, e: Event)
    ensures e.TickController? && e.ctrl in s.ctrls && Sized(s.ctrls[e.ctrl].table) ==>
      OnTickController(s, e.ctrl, e.dt).log == s.log
  {
  }

  /**
   * Over any run, restarts included and whatever the check values, an accessory queues at most one link for
   * an index, as long as no challenge meets a window that ends at UINT32_MAX without a usable index that answers it.
   */
  lemma {:induction false} IndexLinksOnce(mac: Mac, keys: OriginKeys, s: System, es: seq<Event>)
    requires Fresh(s) && IndicesLeft(mac, keys, s, es)
    ensures IndicesUsedOnce(Run(mac, keys, s, es).log)
  {
    hide SystemInv, Next, IndexLeft, Fresh, IndicesUsedOnce, FreshStep;
    if es == [] {
      NothingUsed(s);
    } else {
      var before, e := Run(mac, keys, s, es[..|es| - 1]), es[|es| - 1];
      assert forall n :: 0 <= n < |es| - 1 ==> es[..|es| - 1][..n] == es[..n];
      IndexLinksOnce(mac, keys, s, es[..|es| - 1]);
      SameDevices(mac, keys, s, es[..|es| - 1]);
      StepUsesFreshIndex(mac, keys, before, e);
      FreshStepKeeps(before.log, Run(mac, keys, s, es).log);
    }
  }

  lemma NothingUsed(s: System)
    requires Fresh(s)
    ensures IndicesUsedOnce(s.log)
  {
  }

  // ---------------------------------------------------------------- a run that uses an index twice

  function ZeroKeys(): (r: OriginKeys) {
    _ => ZERO_KEY
  }

  /** A controller, and an accessory with room for one link whose window ends at UINT32_MAX. */
  function TopSystem(ctrl: NxId, acc: NxId): (r: System) {
    var w := Window(UINT32_MAX - WINDOW_AFTER_CENTER, seq(16, _ => false), WINDOW_BEFORE_CENTER, WINDOW_AFTER_CENTER);
    System(map[acc := AccessoryDevice(IDLE_SERVER, w, Some(w), Links.Init([None]))],
           map[ctrl := ControllerDevice(seq(CLIENTS, _ => ZERO_CLIENT), Links.Init([None]))], {}, [])
  }

  lemma TopSystemIsFresh(ctrl: NxId, acc: NxId)
    ensures Fresh(TopSystem(ctrl, acc))
  {
    BlankMemoryInv([None]);
    hide Inv, Links.Init;
  }

  /** The command's digits are 1, and the first post carries the challenge that index 0 answers. */
  lemma CommandIsPosted(ctrl: NxId, acc: NxId)
    ensures var mac, s := ZeroIndexMac(), TopSystem(ctrl, acc);
      var s1 := OnCommand(mac, s, Command(ctrl, 1, ZERO_SALT));
      var s2 := OnTickController(s1, ctrl, 5);
      ChallengeMsg(ctrl, ZERO_INDEX_CHALLENGE) in s2.net && s2.accs == s.accs && |s2.log| == 1 && Sized(s1.ctrls[ctrl].table)
  {
    var mac := ZeroIndexMac();
    var c := Challenge(mac, 1, ZERO_SALT);
    assert (ZERO_SALT + Le32(1))[8] == 1 && Le32(0) == [0, 0, 0, 0];
    assert c.key[0] == 1;
    assert c.chalData == ZERO_INDEX_CHALLENGE;
    assert TickClient(c, 5).1;
    hide ZeroIndexMac, TickClient, Challenge, Links.Process;
    var s1 := OnCommand(mac, TopSystem(ctrl, acc), Command(ctrl, 1, ZERO_SALT));
    assert s1.ctrls[ctrl].clients[0] == c;
  }

  /** Delivering that challenge to an accessory at the top window logs a link for index 0, if there is room. */
  lemma DeliveredAtTop(s: System, ctrl: NxId, acc: NxId)
    requires DevicesOk(s) && acc in s.accs
    ensures var a := s.accs[acc];
      var s' := OnChallenge(ZeroIndexMac(), ZeroKeys(), s, ChallengeMsg(ctrl, ZERO_INDEX_CHALLENGE), acc);
      && AccessoryInv(a)
      && (a.window.center == UINT32_MAX - WINDOW_AFTER_CENTER && !a.table.pendingAdd
            && MakeRoom(a.table, ctrl, OperatingMode.Accessory).Some? ==>
            && acc in s'.accs && s'.accs[acc].window == a.window && Inv(s'.accs[acc].table) && s'.net >= s.net
            && s'.accs[acc].table.pendingAdd && s'.accs[acc].table.pending.id == ctrl
            && |s'.log| == |s.log| + 1 && s'.log[..|s.log|] == s.log
            && s'.log[|s.log|].AccessoryLinked? && s'.log[|s.log|].acc == acc && s'.log[|s.log|].index == 0)
  {
    var a := s.accs[acc];
    assert AccessoryInv(a);
    if a.window.center == UINT32_MAX - WINDOW_AFTER_CENTER {
      TopWindowReusesIndex(a, ctrl);
      AnsweredChallenge(ZeroIndexMac(), ZERO_KEY, a, ctrl, ZERO_INDEX_CHALLENGE);
      ServerPostInv(ZeroIndexMac(), ZERO_KEY, a, ctrl, Request(ZERO_INDEX_CHALLENGE), 0);
      hide AccessoryInv, Inv, ServerPost, MakeRoom, Request, Consumed;
    }
  }

  /** Once the queued link to a controller is stored, there is room for a new link to it. */
  lemma StoredHasRoom(t: Table)
    requires Inv(t) && t.pendingAdd
    ensures var t' := Links.Process(t, 0);
      Inv(t') && !t'.pendingAdd && MakeRoom(t', t.pending.id, OperatingMode.Accessory).Some?
  {
    ProcessInv(t, 0);
    TickInv(t, |t.links|, 0);
    TickFlags(t, |t.links|, 0);
    hide Inv, Tick;
    AddPendingInv(Tick(t, |t.links|, 0));
  }

  lemma RunThen(mac: Mac, keys: OriginKeys, s: System, es: seq<Event>, e: Event)
    requires Fresh(s)
    ensures var before := Run(mac, keys, s, es);
      DevicesOk(before) && Run(mac, keys, s, es + [e]) == Next(mac, keys, before, e)
  {
    assert (es + [e])[..|es|] == es;
    hide DevicesOk, Fresh, Next;
  }

  lemma PostSteps(s: System, ctrl: NxId)
    requires DevicesOk(s) && ctrl in s.ctrls
    ensures Next(ZeroIndexMac(), ZeroKeys(), s, Command(ctrl, 1, ZERO_SALT))
      == OnCommand(ZeroIndexMac(), s, Command(ctrl, 1, ZERO_SALT))
    ensures Next(ZeroIndexMac(), ZeroKeys(), s, TickController(ctrl, 5)) == OnTickController(s, ctrl, 5)
  {
    hide OnCommand, OnTickController;
  }

  /** The command is posted to a fresh network. */
  lemma CommandKeepsControllers(mac: Mac, s: System, e: Event)
    requires e.Command? && e.ctrl in s.ctrls
    ensures OnCommand(mac, s, e).ctrls.Keys == s.ctrls.Keys
  {
    hide StartHandshake;
  }

  lemma RunOfTwo(mac: Mac, keys: OriginKeys, s: System, e1: Event, e2: Event)
    requires Fresh(s)
    ensures Run(mac, keys, s, [e1]) == Next(mac, keys, s, e1)
    ensures Run(mac, keys, s, [e1] + [e2]) == Next(mac, keys, Run(mac, keys, s, [e1]), e2)
  {
    assert [e1] == [] + [e1] && Run(mac, keys, s, []) == s;
    hide Fresh, SystemInv, Run, Next;
    RunThen(mac, keys, s, [], e1);
    RunThen(mac, keys, s, [e1], e2);
  }

  lemma PostedRun(ctrl: NxId, acc: NxId)
    ensures Fresh(TopSystem(ctrl, acc))
    ensures var es := [Command(ctrl, 1, ZERO_SALT)] + [TickController(ctrl, 5)];
      var s := Run(ZeroIndexMac(), ZeroKeys(), TopSystem(ctrl, acc), es);
      ChallengeMsg(ctrl, ZERO_INDEX_CHALLENGE) in s.net && s.accs == TopSystem(ctrl, acc).accs
  {
    hide ZeroIndexMac, ZeroKeys, Run, Next, Fresh, OnCommand, OnTickController;
    TopSystemIsFresh(ctrl, acc);
    var s, command := TopSystem(ctrl, acc), Command(ctrl, 1, ZERO_SALT);
    CommandIsPosted(ctrl, acc);
    RunOfTwo(ZeroIndexMac(), ZeroKeys(), s, command, TickController(ctrl, 5));
    PostSteps(s, ctrl);
    CommandKeepsControllers(ZeroIndexMac(), s, command);
    PostSteps(Run(ZeroIndexMac(), ZeroKeys(), s, [command]), ctrl);
  }

  lemma EmptyHasRoom(ctrl: NxId)
    ensures var t := Links.Init([None]); Sized(t) && !t.pendingAdd && MakeRoom(t, ctrl, OperatingMode.Accessory).Some?
  {
  }

  function Stored(s: System, acc: NxId): (r: System)
    requires acc in s.accs && Sized(s.accs[acc].table)
  {
    var a := s.accs[acc];
    s.(accs := s.accs[acc := a.(server := ServerProcess(a.server, 0), table := Links.Process(a.table, 0))])
  }

  lemma SameIndexTwice(log: seq<Entry>, n: nat)
    requires n + 1 < |log| && log[n].AccessoryLinked? && log[n + 1].AccessoryLinked?
    requires log[n].acc == log[n + 1].acc && log[n].index == log[n + 1].index
    ensures !IndicesUsedOnce(log)
  {
  }

  lemma TableIsSized(t: Table)
    requires Inv(t)
    ensures Sized(t)
  {
  }

  lemma AccessoryIsFormed(s: System, acc: NxId)
    requires DevicesOk(s) && acc in s.accs
    ensures Sized(s.accs[acc].table) && Formed(s.accs[acc].window)
  {
    assert AccessoryInv(s.accs[acc]);
  }

  /** Deliver, store, deliver again: two links for index 0. */
  lemma DeliveredTwice(s: System, ctrl: NxId, acc: NxId)
    requires acc in s.accs && s.accs[acc].table == Links.Init([None])
    requires s.accs[acc].window.center == UINT32_MAX - WINDOW_AFTER_CENTER && DevicesOk(s)
    ensures var msg := ChallengeMsg(ctrl, ZERO_INDEX_CHALLENGE);
      var s1 := OnChallenge(ZeroIndexMac(), ZeroKeys(), s, msg, acc);
      DevicesOk(Stored(s1, acc)) ==>
        !IndicesUsedOnce(OnChallenge(ZeroIndexMac(), ZeroKeys(), Stored(s1, acc), msg, acc).log)
  {
    AccessoryIsFormed(s, acc);
    hide OnChallenge, ZeroIndexMac, ZeroKeys, MakeRoom, Links.Init, Links.Process, ServerProcess;
    hide IndicesUsedOnce, DevicesOk, AccessoryInv, Inv;
    var mac, keys, msg := ZeroIndexMac(), ZeroKeys(), ChallengeMsg(ctrl, ZERO_INDEX_CHALLENGE);
    var s1 := OnChallenge(mac, keys, s, msg, acc);
    EmptyHasRoom(ctrl);
    DeliveredAtTop(s, ctrl, acc);
    StoredHasRoom(s1.accs[acc].table);
    TableIsSized(s1.accs[acc].table);
    if DevicesOk(Stored(s1, acc)) {
      AccessoryIsFormed(Stored(s1, acc), acc);
      DeliveredAtTop(Stored(s1, acc), ctrl, acc);
      var n, log := |s.log|, OnChallenge(mac, keys, Stored(s1, acc), msg, acc).log;
      assert log[n] == log[..n + 1][n];
      SameIndexTwice(log, n);
    }
  }

  lemma NextSteps(s: System, ctrl: NxId, acc: NxId)
    requires DevicesOk(s) && acc in s.accs
    ensures var msg := ChallengeMsg(ctrl, ZERO_INDEX_CHALLENGE);
      msg in s.net ==>
        Next(ZeroIndexMac(), ZeroKeys(), s, DeliverChallenge(msg, acc)) == OnChallenge(ZeroIndexMac(), ZeroKeys(), s, msg, acc)
    ensures Next(ZeroIndexMac(), ZeroKeys(), s, TickAccessory(acc, 0)) == Stored(s, acc)
  {
    hide OnChallenge, Links.Process, ServerProcess;
  }

  /** After any run that leaves the challenge on the network and the accessory empty at the top window. */
  lemma DeliveredRun(top: System, es: seq<Event>, ctrl: NxId, acc: NxId)
    requires Fresh(top)
    ensures var mac, keys := ZeroIndexMac(), ZeroKeys();
      var s, deliver := Run(mac, keys, top, es), DeliverChallenge(ChallengeMsg(ctrl, ZERO_INDEX_CHALLENGE), acc);
      acc in s.accs && s.accs[acc].window.center == UINT32_MAX - WINDOW_AFTER_CENTER
      && s.accs[acc].table == Links.Init([None]) && ChallengeMsg(ctrl, ZERO_INDEX_CHALLENGE) in s.net ==>
        !IndicesUsedOnce(Run(mac, keys, top, es + [deliver] + [TickAccessory(acc, 0)] + [deliver]).log)
  {
    var mac, keys, msg := ZeroIndexMac(), ZeroKeys(), ChallengeMsg(ctrl, ZERO_INDEX_CHALLENGE);
    var deliver := DeliverChallenge(msg, acc);
    var s := Run(mac, keys, top, es);
    if acc in s.accs && s.accs[acc].window.center == UINT32_MAX - WINDOW_AFTER_CENTER
       && s.accs[acc].table == Links.Init([None]) && msg in s.net
    {
      hide *;
      RunThen(mac, keys, top, es, deliver);
      RunThen(mac, keys, top, es + [deliver], TickAccessory(acc, 0));
      RunThen(mac, keys, top, es + [deliver] + [TickAccessory(acc, 0)], deliver);
      NextSteps(s, ctrl, acc);
      EmptyHasRoom(ctrl);
      DeliveredAtTop(s, ctrl, acc);
      var s1 := Run(mac, keys, top, es + [deliver]);
      NextSteps(s1, ctrl, acc);
      DeliveredStays(s, ctrl, acc);
      NextSteps(Stored(s1, acc), ctrl, acc);
      DeliveredTwice(s, ctrl, acc);
    }
  }

  lemma DeliveredStays(s: System, ctrl: NxId, acc: NxId)
    requires DevicesOk(s) && acc in s.accs
    ensures var msg := ChallengeMsg(ctrl, ZERO_INDEX_CHALLENGE);
      var s1 := OnChallenge(ZeroIndexMac(), ZeroKeys(), s, msg, acc);
      acc in s1.accs && Sized(s1.accs[acc].table) && (msg in s.net ==> msg in Stored(s1, acc).net && acc in Stored(s1, acc).accs)
  {
    assert AccessoryInv(s.accs[acc]);
    ServerPostInv(ZeroIndexMac(), ZeroKeys()(acc), s.accs[acc], ctrl, Request(ZERO_INDEX_CHALLENGE), 0);
    hide ServerPost, Request, Links.Process, ServerProcess, ZeroIndexMac, ZeroKeys, Consumed, Within;
  }

  /** Five steps after which the accessory has queued two links for its index 0. */
  lemma TopWindowLinksTwice(ctrl: NxId, acc: NxId)
    ensures Fresh(TopSystem(ctrl, acc))
    ensures var deliver := DeliverChallenge(ChallengeMsg(ctrl, ZERO_INDEX_CHALLENGE), acc);
      var es := [Command(ctrl, 1, ZERO_SALT)] + [TickController(ctrl, 5)] + [deliver] + [TickAccessory(acc, 0)] + [deliver];
      !IndicesUsedOnce(Run(ZeroIndexMac(), ZeroKeys(), TopSystem(ctrl, acc), es).log)
  {
    PostedRun(ctrl, acc);
    hide Run, IndicesUsedOnce, Fresh, Links.Init, ZeroIndexMac, ZeroKeys;
    DeliveredRun(TopSystem(ctrl, acc), [Command(ctrl, 1, ZERO_SALT)] + [TickController(ctrl, 5)], ctrl, acc);
  }
}
