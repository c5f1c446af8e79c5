/**
 * One controller on a network that may also forge: any response may reach any of its handshake slots, used
 * or idle. The log records handshakes begun and links queued.
 */
module HandshakeForgery {
  import opened Prelude
  import opened Links
  import opened Handshake

  datatype Event =
    | Command(challenge: U32, salt: Salt)
    | Response(client: nat, from: NxId, created: bool, reps: seq<Rep>)
    | Tick(dt: U32)
    | Restart

  datatype Entry = Begun(challenge: U32, salt: Salt) | LinkQueued(from: NxId, key: Key, salt: Salt, response: seq<Rep>)

  // ---------------------------------------------------------------- what a response can do

  /** A property that carries the check value of a key and a salt. */
  predicate Matches(mac: Mac, key: Key, salt: Salt, rep: Rep) {
    Named(rep.name, "rD") && rep.BytesRep? && |rep.value| % 0x100 == 8 && |rep.value| >= 8
    && rep.value[..8] == mac(key, Inverted(salt))
  }

  predicate Carries(mac: Mac, key: Key, salt: Salt, reps: seq<Rep>) {
    exists k :: 0 <= k < |reps| && Matches(mac, key, salt, reps[k])
  }

  /** The controller once the link of slot i to the sender is queued. */
  ghost predicate TookLink(c: ControllerDevice, c': ControllerDevice, i: nat, from: NxId)
    requires i < |c.clients|
  {
    var client := c.clients[i];
    && Queued(c.table, c'.table) && c'.clients == c.clients[i := ZERO_CLIENT]
    && c'.table.pending == Link(from, OperatingMode.Controller, client.secMode, 0, 0, client.key, 0)
  }

  /** A property changes nothing, or it matches and the slot's link is queued. */
  lemma ResponseTaken(mac: Mac, c: ControllerDevice, i: nat, from: NxId, rep: Rep)
    requires Inv(c.table) && i < |c.clients|
    ensures var c' := TakeResponse(mac, c, i, from, rep).0;
      Inv(c'.table) && (c' == c || (Matches(mac, c.clients[i].key, c.clients[i].salt, rep) && TookLink(c, c', i, from)))
  {
    var client := c.clients[i];
    CreateLinkInv(c.table, from, OperatingMode.Controller, client.secMode, client.key, 0);
    QueuedLink(c.table, from, OperatingMode.Controller, client.secMode, client.key);
    hide Inv, MakeRoom, Named;
  }

  /** So does a whole response; it queues one link at most, for the slot as it was when the response came. */
  lemma {:induction false} ResponsesTaken(mac: Mac, c: ControllerDevice, i: nat, from: NxId, reps: seq<Rep>)
    requires Inv(c.table) && i < |c.clients|
    ensures var c' := TakeResponses(mac, c, i, from, reps).0;
      Inv(c'.table) && (c' == c || (Carries(mac, c.clients[i].key, c.clients[i].salt, reps) && TookLink(c, c', i, from)))
  {
    if reps != [] {
      var before := reps[..|reps| - 1];
      ResponsesTaken(mac, c, i, from, before);
      var (c1, on) := TakeResponses(mac, c, i, from, before);
      assert Sized(c1.table);
      if on { ResponseTaken(mac, c1, i, from, reps[|reps| - 1]); }
      var key, salt := c.clients[i].key, c.clients[i].salt;
      assert Carries(mac, key, salt, before) ==> Carries(mac, key, salt, reps) by {
        if k :| 0 <= k < |before| && Matches(mac, key, salt, before[k]) { assert reps[k] == before[k]; }
      }
      hide Inv, TakeResponse, Matches;
    }
  }


  // ---------------------------------------------------------------- the controller's runs

  /** The controller after an event, and what it logs. */
  function Next(mac: Mac, c: ControllerDevice, e: Event): (r: (ControllerDevice, seq<Entry>))
    requires Sized(c.table)
  {
    match e
    case Command(challenge, salt) =>
      var (clients, started) := StartHandshake(mac, c.clients, challenge, salt);
      (c.(clients := clients), if started then [Begun(challenge, salt)] else [])
    case Response(i, from, created, reps) =>
      if i >= |c.clients| then (c, [])
      else
        var c' := ClientPost(mac, c, i, from, created, reps);
        (c', if Queued(c.table, c'.table) then [LinkQueued(from, c'.table.pending.key, c.clients[i].salt, reps)] else [])
    case Tick(dt) =>
      (ControllerDevice(Ticked(c.clients, dt), Links.Process(c.table, dt)), [])
    case Restart => (ControllerDevice(seq(|c.clients|, _ => ZERO_CLIENT), Links.Init(c.table.nv)), [])
  }

  ghost predicate WasBegun(mac: Mac, log: seq<Entry>, salt: Salt, key: Key) {
    exists challenge: U32 :: Begun(challenge, salt) in log && key == LinkKey(mac, challenge, salt)
  }

  /** Used slots belong to handshakes that were begun; idle slots hold zeros. */
  ghost predicate SlotOk(mac: Mac, log: seq<Entry>, client: Client) {
    if client.active then WasBegun(mac, log, client.salt, client.key) else client == ZERO_CLIENT
  }

  ghost predicate ControllerInv(mac: Mac, log: seq<Entry>, c: ControllerDevice) {
    Inv(c.table) && forall i :: 0 <= i < |c.clients| ==> SlotOk(mac, log, c.clients[i])
  }

  /**
   * A queued link is under the key and salt of a handshake begun before, or under zeros; and the response that
   * queued it carries the check value of that key and salt.
   */
  ghost predicate EntryOk(mac: Mac, prior: seq<Entry>, e: Entry) {
    e.LinkQueued? ==>
      && Carries(mac, e.key, e.salt, e.response)
      && (WasBegun(mac, prior, e.salt, e.key) || (e.key == ZERO_KEY && e.salt == ZERO_SALT))
  }

  ghost predicate LogOk(mac: Mac, log: seq<Entry>) {
    forall p :: 0 <= p < |log| ==> EntryOk(mac, log[..p], log[p])
  }

  lemma SizedController(mac: Mac, log: seq<Entry>, c: ControllerDevice)
    requires ControllerInv(mac, log, c)
    ensures Sized(c.table)
  {
  }

  lemma BegunStays(mac: Mac, log: seq<Entry>, more: seq<Entry>, salt: Salt, key: Key)
    requires WasBegun(mac, log, salt, key)
    ensures WasBegun(mac, log + more, salt, key)
  {
    hide LinkKey;
    var challenge: U32 :| Begun(challenge, salt) in log && key == LinkKey(mac, challenge, salt);
    assert Begun(challenge, salt) in log + more;
  }

  lemma SlotsStay(mac: Mac, log: seq<Entry>, more: seq<Entry>, clients: seq<Client>)
    requires forall i :: 0 <= i < |clients| ==> SlotOk(mac, log, clients[i])
    ensures forall i :: 0 <= i < |clients| ==> SlotOk(mac, log + more, clients[i])
  {
    hide WasBegun;
    forall i | 0 <= i < |clients| ensures SlotOk(mac, log + more, clients[i]) {
      if clients[i].active { BegunStays(mac, log, more, clients[i].salt, clients[i].key); }
    }
  }

  lemma CommandInv(mac: Mac, log: seq<Entry>, c: ControllerDevice, challenge: U32, salt: Salt)
    requires ControllerInv(mac, log, c)
    ensures var (c', more) := Next(mac, c, Command(challenge, salt)); ControllerInv(mac, log + more, c')
  {
    var (c', more) := Next(mac, c, Command(challenge, salt));
    SlotsStay(mac, log, more, c.clients);
    hide Inv, LinkKey;
    var idle := FirstIdleFrom(c.clients, 0);
    if idle.Some? {
      assert Begun(challenge, salt) in log + more;
      assert SlotOk(mac, log + more, Challenge(mac, challenge, salt));
      hide SlotOk;
      assert c'.clients == c.clients[idle.value := Challenge(mac, challenge, salt)];
    }
  }

  lemma ResponseInv(mac: Mac, log: seq<Entry>, c: ControllerDevice, e: Event)
    requires ControllerInv(mac, log, c) && e.Response?
    ensures var (c', more) := Next(mac, c, e);
      ControllerInv(mac, log + more, c') && |more| <= 1 && forall n :: 0 <= n < |more| ==> EntryOk(mac, log, more[n])
  {
    var (c', more) := Next(mac, c, e);
    SlotsStay(mac, log, more, c.clients);
    if e.client < |c.clients| {
      assert SlotOk(mac, log, c.clients[e.client]) && SlotOk(mac, log + more, ZERO_CLIENT);
      ResponsesTaken(mac, c, e.client, e.from, e.reps);
      hide Inv, WasBegun, TakeResponses, Carries;
    }
  }

  lemma TickInv(mac: Mac, log: seq<Entry>, c: ControllerDevice, dt: U32)
    requires ControllerInv(mac, log, c)
    ensures var (c', more) := Next(mac, c, Tick(dt)); more == [] && ControllerInv(mac, log, c')
  {
    ProcessInv(c.table, dt);
    hide Inv, Links.Process;
    forall i | 0 <= i < |c.clients| ensures SlotOk(mac, log, Ticked(c.clients, dt)[i]) {
      TickedSlotOk(mac, log, c.clients[i], dt);
    }
    hide SlotOk, Ticked;
  }

  lemma TickedSlotOk(mac: Mac, log: seq<Entry>, client: Client, dt: U32)
    requires SlotOk(mac, log, client)
    ensures SlotOk(mac, log, TickClient(client, dt).0)
  {
    hide WasBegun;
  }

  /** Every event keeps the controller's invariant and logs only what EntryOk allows. */
  lemma NextInv(mac: Mac, log: seq<Entry>, c: ControllerDevice, e: Event)
    requires ControllerInv(mac, log, c)
    ensures var (c', more) := Next(mac, c, e);
      ControllerInv(mac, log + more, c') && |more| <= 1 && forall n :: 0 <= n < |more| ==> EntryOk(mac, log, more[n])
  {
    assert log + [] == log;
    match e
    case Command(challenge, salt) =>
      CommandInv(mac, log, c, challenge, salt);
      hide ControllerInv, StartHandshake;
    case Response(_, _, _, _) => ResponseInv(mac, log, c, e);
    case Tick(dt) => TickInv(mac, log, c, dt);
    case Restart =>
      RebootRestores(c.table);
      hide Inv, Links.Init;
  }

  /** Any links, and no handshake under way. */
  ghost predicate Idle(c: ControllerDevice) {
    Inv(c.table) && forall i :: 0 <= i < |c.clients| ==> c.clients[i] == ZERO_CLIENT
  }

  ghost function Run(mac: Mac, c: ControllerDevice, es: seq<Event>): (r: (ControllerDevice, seq<Entry>))
    requires Idle(c)
    ensures ControllerInv(mac, r.1, r.0)
  {
    if es == [] then (c, [])
    else
      var (c1, log) := Run(mac, c, es[..|es| - 1]);
      NextInv(mac, log, c1, es[|es| - 1]);
      var (c2, more) := Next(mac, c1, es[|es| - 1]);
      (c2, log + more)
  }

  /**
   * Over any run, whoever sent the responses: every link a controller queues is under the key and salt of a
   * handshake it began before, or under the all-zero key, and took a response with the check value of that key
   * and the inverted salt.
   */
  lemma {:induction false} LinksNeedHandshakeOrZeroKey(mac: Mac, c: ControllerDevice, es: seq<Event>)
    requires Idle(c)
    ensures LogOk(mac, Run(mac, c, es).1)
  {
    hide ControllerInv, EntryOk, Next, Idle;
    if es != [] {
      LinksNeedHandshakeOrZeroKey(mac, c, es[..|es| - 1]);
      var (c1, log) := Run(mac, c, es[..|es| - 1]);
      SizedController(mac, log, c1);
      NextInv(mac, log, c1, es[|es| - 1]);
      LogGrows(mac, log, Next(mac, c1, es[|es| - 1]).1);
    }
  }

  lemma LogGrows(mac: Mac, log: seq<Entry>, more: seq<Entry>)
    requires LogOk(mac, log) && |more| <= 1 && forall n :: 0 <= n < |more| ==> EntryOk(mac, log, more[n])
    ensures LogOk(mac, log + more)
  {
    hide EntryOk;
    var all := log + more;
    forall p | 0 <= p < |all| ensures EntryOk(mac, all[..p], all[p]) {
      if p < |log| {
        assert all[..p] == log[..p];
      } else {
        assert all[..p] == log && all[p] == more[0];
      }
    }
  }

  // ---------------------------------------------------------------- the all-zero key

  /** An idle slot holds zeros: it takes exactly one value, which needs no secret, and links its sender under the zero key. */
  lemma IdleSlotTakesZeroKey(mac: Mac, c: ControllerDevice, i: nat, from: NxId, respData: Tag)
    requires Inv(c.table) && i < |c.clients| && c.clients[i] == ZERO_CLIENT
    ensures var c' := ClientPost(mac, c, i, from, true, [BytesRep("rD", respData)]);
      && (Queued(c.table, c'.table) <==>
            && respData == mac(ZERO_KEY, Inverted(ZERO_SALT))
            && CreateLink(c.table, from, OperatingMode.Controller, 0, ZERO_KEY, 0).1)
      && (Queued(c.table, c'.table) ==> c'.table.pending == Link(from, OperatingMode.Controller, 0, 0, 0, ZERO_KEY, 0))
  {
    TakenResponse(mac, c, i, from, respData);
    hide Inv, ClientPost, CreateLink;
  }

  /** One response to a controller with an empty link table that never began a handshake. */
  lemma ZeroKeyRun(mac: Mac, from: NxId)
    ensures var c := ControllerDevice(seq(CLIENTS, _ => ZERO_CLIENT), Links.Init([None]));
      var response := [BytesRep("rD", mac(ZERO_KEY, Inverted(ZERO_SALT)))];
      Idle(c) && Run(mac, c, [Response(0, from, true, response)]).1 == [LinkQueued(from, ZERO_KEY, ZERO_SALT, response)]
  {
    var c := ControllerDevice(seq(CLIENTS, _ => ZERO_CLIENT), Links.Init([None]));
    var response := [BytesRep("rD", mac(ZERO_KEY, Inverted(ZERO_SALT)))];
    var es := [Response(0, from, true, response)];
    BlankMemoryInv([None]);
    IdleSlotTakesZeroKey(mac, c, 0, from, mac(ZERO_KEY, Inverted(ZERO_SALT)));
    assert CreateLink(c.table, from, OperatingMode.Controller, 0, ZERO_KEY, 0).1;
    assert es[..0] == [] && Run(mac, c, []) == (c, []);
    hide Inv, ClientPost, CreateLink, Links.Init;
    assert Run(mac, c, es).1 == [] + Next(mac, c, es[0]).1;
  }
}
