/** A handshake that nothing disturbs links both devices. */
module HandshakeSuccess {
  import opened Prelude
  import opened Links
  import opened Window
  import opened Handshake
  import opened HandshakeProtocol

  /** No index that answers the challenge has other digits than these. */
  ghost predicate OnlyAnsweredBy(mac: Mac, originKey: Key, challenge: U32, salt: Salt) {
    forall index: U32 :: IndexCheck(mac, originKey, salt, mac(LinkKey(mac, challenge, salt), salt))(index) ==>
      ChallengeInt(mac, originKey, index) == challenge
  }

  /** A usable index of the accessory has these digits. */
  ghost predicate Offered(mac: Mac, originKey: Key, w: Window, challenge: U32) {
    Formed(w) && exists index: U32 :: Usable(w, index) && ChallengeInt(mac, originKey, index) == challenge
  }

  lemma OfferedIsFound(mac: Mac, originKey: Key, w: Window, challenge: U32, salt: Salt)
    requires Offered(mac, originKey, w, challenge) && w.below <= w.center
    ensures var key := LinkKey(mac, challenge, salt);
      var check := IndexCheck(mac, originKey, salt, mac(key, salt));
      Searched(w, check).Found? && check(Searched(w, check).id)
  {
    var check := IndexCheck(mac, originKey, salt, mac(LinkKey(mac, challenge, salt), salt));
    var index: U32 :| Usable(w, index) && ChallengeInt(mac, originKey, index) == challenge;
    assert check(index);
    hide LinkKey, ChallengeInt, Usable, IndexCheck, Searched;
    SearchedIsLeast(w, check);
    SearchedMeaning(w, check);
  }

  lemma OfferIsAccepted(mac: Mac, originKey: Key, a: AccessoryDevice, from: NxId, challenge: U32, salt: Salt)
    requires AccessoryInv(a) && Offered(mac, originKey, a.window, challenge) && OnlyAnsweredBy(mac, originKey, challenge, salt)
    requires CreateLink(a.table, from, OperatingMode.Accessory, 0, LinkKey(mac, challenge, salt), 0).1
    ensures var key := LinkKey(mac, challenge, salt);
      var (a', reply, accepted) := ServerPost(mac, originKey, a, from, Request(salt + mac(key, salt)));
      && reply == Created(mac(key, Inverted(salt))) && accepted.Some?
      && accepted.value.key == key && accepted.value.salt == salt
      && a'.table.pendingAdd && a'.table.pending == Link(from, OperatingMode.Accessory, 0, 0, 0, key, 0)
  {
    var key := LinkKey(mac, challenge, salt);
    var chalData: ChalData := salt + mac(key, salt);
    assert chalData[..8] == salt && chalData[8..] == mac(key, salt);
    OfferedIsFound(mac, originKey, a.window, challenge, salt);
    RequestIsTaken(a.server.(active := true), chalData);
    AnsweredChallenge(mac, originKey, a, from, chalData);
    hide Inv, SetId, Searched, Consumed, Within, LinkKey, ChallengeInt, TakeReps, CreateLink, Offered, Inverted;
    assert Validated(mac, originKey, a.window, chalData) == Searched(a.window, IndexCheck(mac, originKey, salt, mac(key, salt)));
  }

  lemma CommandStarts(mac: Mac, s: System, ctrl: NxId, challenge: U32, salt: Salt)
    requires Fresh(s) && ctrl in s.ctrls
    ensures var s' := OnCommand(mac, s, Command(ctrl, challenge, salt));
      && s'.accs == s.accs && s'.net == s.net && s'.log == s.log + [Started(ctrl, challenge, salt)]
      && s'.ctrls == s.ctrls[ctrl := s'.ctrls[ctrl]] && s'.ctrls[ctrl].table == s.ctrls[ctrl].table
      && |s'.ctrls[ctrl].clients| == CLIENTS && s'.ctrls[ctrl].clients[0] == Challenge(mac, challenge, salt)
  {
    hide Challenge, Inv, AccessoryInv;
    assert FirstIdleFrom(s.ctrls[ctrl].clients, 0) == Some(0);
  }

  lemma FirstPostGoesOut(mac: Mac, c: Client, challenge: U32, salt: Salt)
    requires c == Challenge(mac, challenge, salt)
    ensures TickClient(c, 5).1 && var c' := TickClient(c, 5).0;
      c'.key == LinkKey(mac, challenge, salt) && c'.salt == salt && c'.secMode == 0
  {
    hide LinkKey;
  }

  /** The challenge, and the response, of the handshake with these digits and this salt. */
  function FirstMessage(mac: Mac, ctrl: NxId, challenge: U32, salt: Salt): (m: Msg) {
    ChallengeMsg(ctrl, salt + mac(LinkKey(mac, challenge, salt), salt))
  }

  function SecondMessage(mac: Mac, ctrl: NxId, acc: NxId, challenge: U32, salt: Salt): (m: Msg) {
    ResponseMsg(acc, ctrl, mac(LinkKey(mac, challenge, salt), Inverted(salt)))
  }

  lemma TickPosts(mac: Mac, s: System, ctrl: NxId, challenge: U32, salt: Salt)
    requires ctrl in s.ctrls && Inv(s.ctrls[ctrl].table) && |s.ctrls[ctrl].clients| == CLIENTS
    requires s.ctrls[ctrl].clients[0] == Challenge(mac, challenge, salt)
    ensures var s' := OnTickController(s, ctrl, 5);
      && s'.accs == s.accs && s'.log == s.log && FirstMessage(mac, ctrl, challenge, salt) in s'.net
      && ctrl in s'.ctrls && s'.ctrls[ctrl].table == Links.Process(s.ctrls[ctrl].table, 5)
      && |s'.ctrls[ctrl].clients| == CLIENTS
      && var c := s'.ctrls[ctrl].clients[0];
        c.key == LinkKey(mac, challenge, salt) && c.salt == salt && c.secMode == 0
  {
    FirstPostGoesOut(mac, s.ctrls[ctrl].clients[0], challenge, salt);
    hide Links.Process, Inv, LinkKey, TickClient;
    assert s.ctrls[ctrl].clients[0].chalData == salt + mac(LinkKey(mac, challenge, salt), salt);
    assert 0 <= 0 < |s.ctrls[ctrl].clients| && TickClient(s.ctrls[ctrl].clients[0], 5).1;
  }

  lemma ChallengeLinks(mac: Mac, keys: OriginKeys, s: System, ctrl: NxId, acc: NxId, challenge: U32, salt: Salt)
      returns (index: U32)
    requires acc in s.accs && AccessoryInv(s.accs[acc])
    requires Offered(mac, keys(acc), s.accs[acc].window, challenge) && OnlyAnsweredBy(mac, keys(acc), challenge, salt)
    requires CreateLink(s.accs[acc].table, ctrl, OperatingMode.Accessory, 0, LinkKey(mac, challenge, salt), 0).1
    ensures var s' := OnChallenge(mac, keys, s, FirstMessage(mac, ctrl, challenge, salt), acc);
      && s'.ctrls == s.ctrls && SecondMessage(mac, ctrl, acc, challenge, salt) in s'.net
      && s'.log == s.log + [AccessoryLinked(acc, ctrl, LinkKey(mac, challenge, salt), salt, index)]
  {
    OfferIsAccepted(mac, keys(acc), s.accs[acc], ctrl, challenge, salt);
    hide ServerPost, AccessoryInv, LinkKey, Offered, OnlyAnsweredBy, CreateLink, Inverted;
    var accepted := ServerPost(mac, keys(acc), s.accs[acc], ctrl, Request(salt + mac(LinkKey(mac, challenge, salt), salt))).2;
    index := accepted.value.index;
  }

  lemma ResponseLinks(mac: Mac, s: System, ctrl: NxId, acc: NxId, challenge: U32, salt: Salt)
    requires ctrl in s.ctrls && Inv(s.ctrls[ctrl].table) && |s.ctrls[ctrl].clients| == CLIENTS
    requires var c := s.ctrls[ctrl].clients[0]; c.key == LinkKey(mac, challenge, salt) && c.salt == salt && c.secMode == 0
    requires CreateLink(s.ctrls[ctrl].table, acc, OperatingMode.Controller, 0, LinkKey(mac, challenge, salt), 0).1
    ensures var s' := OnResponse(mac, s, SecondMessage(mac, ctrl, acc, challenge, salt), 0);
      s'.log == s.log + [ControllerLinked(ctrl, acc, LinkKey(mac, challenge, salt), salt)]
  {
    TakenResponse(mac, s.ctrls[ctrl], 0, acc, mac(LinkKey(mac, challenge, salt), Inverted(salt)));
    hide ClientPost, Inv, LinkKey, CreateLink, Inverted;
  }

  /** Both tables take a link: the accessory's now, the controller's after its next process(). */
  ghost predicate BothTakeLinks(s: System, ctrl: NxId, acc: NxId, key: Key)
    requires DevicesOk(s) && ctrl in s.ctrls && acc in s.accs
  {
    assert AccessoryInv(s.accs[acc]);
    && CreateLink(s.accs[acc].table, ctrl, OperatingMode.Accessory, 0, key, 0).1
    && CreateLink(NextTable(s, ctrl), acc, OperatingMode.Controller, 0, key, 0).1
  }

  ghost function NextTable(s: System, ctrl: NxId): (t: Table)
    requires DevicesOk(s) && ctrl in s.ctrls
    ensures Inv(t)
  {
    ProcessInv(s.ctrls[ctrl].table, 5);
    Links.Process(s.ctrls[ctrl].table, 5)
  }

  lemma RunOfFour(mac: Mac, keys: OriginKeys, s: System, e1: Event, e2: Event, e3: Event, e4: Event)
    returns (s1: System, s2: System, s3: System)
    requires Fresh(s)
    ensures DevicesOk(s) && s1 == Next(mac, keys, s, e1) && DevicesOk(s1) && s2 == Next(mac, keys, s1, e2)
    ensures DevicesOk(s2) && s3 == Next(mac, keys, s2, e3) && DevicesOk(s3)
    ensures Run(mac, keys, s, [e1, e2, e3, e4]) == Next(mac, keys, s3, e4)
  {
    assert [e1] + [e2] == [e1, e2] && [e1, e2] + [e3] == [e1, e2, e3] && [e1, e2, e3] + [e4] == [e1, e2, e3, e4];
    assert DevicesOk(s);
    hide Fresh, SystemInv, Run, Next, DevicesOk;
    RunOfTwo(mac, keys, s, e1, e2);
    RunThen(mac, keys, s, [e1], e2);
    RunThen(mac, keys, s, [e1, e2], e3);
    RunThen(mac, keys, s, [e1, e2, e3], e4);
    s1, s2, s3 := Run(mac, keys, s, [e1]), Run(mac, keys, s, [e1, e2]), Run(mac, keys, s, [e1, e2, e3]);
  }

  /** The four events, each where it can happen. */
  lemma EventsHappen(mac: Mac, keys: OriginKeys, s: System, ctrl: NxId, acc: NxId, challenge: U32, salt: Salt, msg: Msg)
    requires DevicesOk(s)
    ensures ctrl in s.ctrls ==>
      && Inv(s.ctrls[ctrl].table)
      && Next(mac, keys, s, Command(ctrl, challenge, salt)) == OnCommand(mac, s, Command(ctrl, challenge, salt))
      && Next(mac, keys, s, TickController(ctrl, 5)) == OnTickController(s, ctrl, 5)
    ensures acc in s.accs ==> AccessoryInv(s.accs[acc])
    ensures acc in s.accs && msg in s.net && msg.ChallengeMsg? ==>
      Next(mac, keys, s, DeliverChallenge(msg, acc)) == OnChallenge(mac, keys, s, msg, acc)
    ensures msg in s.net && msg.ResponseMsg? && msg.ctrl in s.ctrls ==>
      && Inv(s.ctrls[msg.ctrl].table) && |s.ctrls[msg.ctrl].clients| == CLIENTS
      && Next(mac, keys, s, DeliverResponse(msg, 0)) == OnResponse(mac, s, msg, 0)
  {
    hide OnCommand, OnTickController, OnChallenge, OnResponse;
  }

  lemma BothTake(s: System, ctrl: NxId, acc: NxId, key: Key)
    requires DevicesOk(s) && ctrl in s.ctrls && acc in s.accs && BothTakeLinks(s, ctrl, acc, key)
    ensures Sized(s.accs[acc].table) && CreateLink(s.accs[acc].table, ctrl, OperatingMode.Accessory, 0, key, 0).1
    ensures Sized(s.ctrls[ctrl].table) && Sized(Links.Process(s.ctrls[ctrl].table, 5))
    ensures CreateLink(Links.Process(s.ctrls[ctrl].table, 5), acc, OperatingMode.Controller, 0, key, 0).1
  {
    assert AccessoryInv(s.accs[acc]) && Inv(NextTable(s, ctrl));
    hide CreateLink, Links.Process;
  }

  /** The challenge is out and the controller waits for the answer to it. */
  ghost predicate IsPosted(mac: Mac, s: System, s2: System, ctrl: NxId, challenge: U32, salt: Salt)
    requires DevicesOk(s) && ctrl in s.ctrls
  {
    && s2.accs == s.accs && s2.log == s.log + [Started(ctrl, challenge, salt)]
    && FirstMessage(mac, ctrl, challenge, salt) in s2.net && ctrl in s2.ctrls
    && s2.ctrls[ctrl].table == NextTable(s, ctrl) && |s2.ctrls[ctrl].clients| == CLIENTS
    && var c := s2.ctrls[ctrl].clients[0];
      c.key == LinkKey(mac, challenge, salt) && c.salt == salt && c.secMode == 0
  }

  lemma CommandIsPosted(mac: Mac, keys: OriginKeys, s: System, s1: System, s2: System, ctrl: NxId, challenge: U32, salt: Salt)
    requires Fresh(s) && ctrl in s.ctrls && s1 == Next(mac, keys, s, Command(ctrl, challenge, salt))
    requires DevicesOk(s1) && s2 == Next(mac, keys, s1, TickController(ctrl, 5))
    ensures IsPosted(mac, s, s2, ctrl, challenge, salt)
  {
    CommandStarts(mac, s, ctrl, challenge, salt);
    hide OnCommand, OnTickController, Next, Challenge, LinkKey, FirstMessage, Inv, AccessoryInv, Links.Process;
    EventsHappen(mac, keys, s, ctrl, ctrl, challenge, salt, FirstMessage(mac, ctrl, challenge, salt));
    EventsHappen(mac, keys, s1, ctrl, ctrl, challenge, salt, FirstMessage(mac, ctrl, challenge, salt));
    TickPosts(mac, s1, ctrl, challenge, salt);
  }

  lemma PostedLinks(mac: Mac, keys: OriginKeys, s: System, s2: System, s3: System,
        ctrl: NxId, acc: NxId, challenge: U32, salt: Salt)
      returns (index: U32)
    requires DevicesOk(s) && ctrl in s.ctrls && acc in s.accs && IsPosted(mac, s, s2, ctrl, challenge, salt)
    requires Offered(mac, keys(acc), s.accs[acc].window, challenge) && OnlyAnsweredBy(mac, keys(acc), challenge, salt)
    requires BothTakeLinks(s, ctrl, acc, LinkKey(mac, challenge, salt)) && DevicesOk(s2) && DevicesOk(s3)
    requires s3 == Next(mac, keys, s2, DeliverChallenge(FirstMessage(mac, ctrl, challenge, salt), acc))
    ensures var key := LinkKey(mac, challenge, salt);
      Next(mac, keys, s3, DeliverResponse(SecondMessage(mac, ctrl, acc, challenge, salt), 0)).log ==
        s2.log + [AccessoryLinked(acc, ctrl, key, salt, index)] + [ControllerLinked(ctrl, acc, key, salt)]
  {
    BothTake(s, ctrl, acc, LinkKey(mac, challenge, salt));
    var first, second := FirstMessage(mac, ctrl, challenge, salt), SecondMessage(mac, ctrl, acc, challenge, salt);
    assert first.ChallengeMsg? && second.ResponseMsg? && second.ctrl == ctrl;
    hide OnChallenge, OnResponse, Next, LinkKey, FirstMessage, SecondMessage, Inv, AccessoryInv, Links.Process, DevicesOk,
      Offered, OnlyAnsweredBy, BothTakeLinks, CreateLink;
    EventsHappen(mac, keys, s2, ctrl, acc, challenge, salt, first);
    EventsHappen(mac, keys, s3, ctrl, acc, challenge, salt, second);
    index := ChallengeLinks(mac, keys, s2, ctrl, acc, challenge, salt);
    ResponseLinks(mac, s3, ctrl, acc, challenge, salt);
  }

  /**
   * If a usable index of the accessory has the digits of the command, no index with other digits answers, and both tables
   * take a link, then the command, five seconds, the challenge and the response make both devices queue a link
   * to each other under the same key.
   */
  lemma UndisturbedHandshake(mac: Mac, keys: OriginKeys, s: System, ctrl: NxId, acc: NxId, challenge: U32, salt: Salt)
      returns (index: U32)
    requires Fresh(s) && ctrl in s.ctrls && acc in s.accs
    requires Offered(mac, keys(acc), s.accs[acc].window, challenge) && OnlyAnsweredBy(mac, keys(acc), challenge, salt)
    requires BothTakeLinks(s, ctrl, acc, LinkKey(mac, challenge, salt))
    ensures var key := LinkKey(mac, challenge, salt);
      var es := [Command(ctrl, challenge, salt), TickController(ctrl, 5),
                 DeliverChallenge(FirstMessage(mac, ctrl, challenge, salt), acc),
                 DeliverResponse(SecondMessage(mac, ctrl, acc, challenge, salt), 0)];
      Run(mac, keys, s, es).log ==
        [Started(ctrl, challenge, salt), AccessoryLinked(acc, ctrl, key, salt, index), ControllerLinked(ctrl, acc, key, salt)]
  {
    FreshLog(s);
    hide Next, LinkKey, FirstMessage, SecondMessage, DevicesOk, Offered, OnlyAnsweredBy, BothTakeLinks, Run, Fresh, IsPosted,
      NextTable, OnCommand, Inv, AccessoryInv, SystemInv;
    var first, second := FirstMessage(mac, ctrl, challenge, salt), SecondMessage(mac, ctrl, acc, challenge, salt);
    var s1, s2, s3 := RunOfFour(mac, keys, s, Command(ctrl, challenge, salt), TickController(ctrl, 5),
                                DeliverChallenge(first, acc), DeliverResponse(second, 0));
    CommandIsPosted(mac, keys, s, s1, s2, ctrl, challenge, salt);
    PostedLog(mac, s, s2, ctrl, challenge, salt);
    index := PostedLinks(mac, keys, s, s2, s3, ctrl, acc, challenge, salt);
    var key := LinkKey(mac, challenge, salt);
    Three(Started(ctrl, challenge, salt), AccessoryLinked(acc, ctrl, key, salt, index), ControllerLinked(ctrl, acc, key, salt));
  }

  lemma Three(a: Entry, b: Entry, c: Entry)
    ensures [a] + [b] + [c] == [a, b, c]
  {
  }

  lemma FreshLog(s: System)
    requires Fresh(s)
    ensures s.log == []
  {
  }

  lemma PostedLog(mac: Mac, s: System, s2: System, ctrl: NxId, challenge: U32, salt: Salt)
    requires DevicesOk(s) && ctrl in s.ctrls && s.log == [] && IsPosted(mac, s, s2, ctrl, challenge, salt)
    ensures s2.log == [Started(ctrl, challenge, salt)]
  {
    hide Inv, AccessoryInv, LinkKey, FirstMessage;
  }
}
