/**
 * The link handshake as functions on values: what the accessory does with a challenge and what the
 * controller does with a command, a response and the passing of time.
 */
module Handshake {
  import opened Prelude
  import opened Links
  import opened Window

  type Salt = s: Bytes | |s| == 8 witness [0, 0, 0, 0, 0, 0, 0, 0]
  type ChalData = c: Bytes | |c| == 16 witness ZERO_KEY

  const ZERO_SALT: Salt := [0, 0, 0, 0, 0, 0, 0, 0]

  const WINDOW_BEFORE_CENTER: U8 := 15
  const WINDOW_AFTER_CENTER: U8 := 8
  const ACCESSORY_TIMEOUT_SECONDS := 300
  const CONTROLLER_TIMEOUT_SECONDS := 3600
  const RETRY_SECONDS := 5
  const CLIENTS := 4

  const DERIVATION_KEY_1: Key :=
    [0x8A, 0x5E, 0xE2, 0xB4, 0xA0, 0xCF, 0xF4, 0x93, 0xE5, 0xED, 0xA2, 0xD1, 0xE4, 0xC4, 0x5B, 0x25]
  const DERIVATION_KEY_2: Key :=
    [0xE2, 0x6F, 0xDB, 0x34, 0xE4, 0xDD, 0x40, 0xBC, 0x63, 0x35, 0xC6, 0x09, 0xAA, 0xDF, 0xAA, 0xC4]

  // ---------------------------------------------------------------- keys and check values

  function Inverted(salt: Salt): (r: Salt) {
    seq(8, i requires 0 <= i < 8 => 0xFF - salt[i])
  }

  function Lower32(t: Tag): (r: U32) {
    var b0: int, b1: int, b2: int, b3: int := t[0], t[1], t[2], t[3];
    b0 + 0x100 * b1 + 0x1_0000 * b2 + 0x100_0000 * b3
  }

  /** The six digits the origin hands out for a handshake index of an accessory. */
  function ChallengeInt(mac: Mac, originKey: Key, index: U32): (r: U32) {
    Lower32(mac(originKey, Le32(index))) % 1000000
  }

  function LinkKey(mac: Mac, challenge: U32, salt: Salt): (r: Key) {
    mac(DERIVATION_KEY_1, salt + Le32(challenge)) + mac(DERIVATION_KEY_2, salt + Le32(challenge))
  }

  function IndexCheck(mac: Mac, originKey: Key, salt: Salt, received: Tag): (r: U32 -> bool) {
    (index: U32) => mac(LinkKey(mac, ChallengeInt(mac, originKey, index), salt), salt) == received
  }

  // ---------------------------------------------------------------- the accessory

  datatype Server = Server(
    chalData: ChalData, respData: Bytes, chalMode: U8, secMode: U8, sinceInit: U16, active: bool)

  const IDLE_SERVER := Server(ZERO_KEY, [], 0, 0, 0, false)

  predicate Named(name: string, short: string) {
    short <= name
  }

  /** A property the accessory takes; a byte string is measured modulo 256. */
  predicate ValidRep(rep: Rep) {
    match rep
    case BytesRep(name, value) => Named(name, "cD") && |value| % 0x100 == 16
    case IntRep(name, number) => (Named(name, "cM") || Named(name, "lS")) && number % 0x100 == 0
    case OtherRep(_) => false
  }

  function TakeRep(s: Server, rep: Rep): (r: Server)
    requires ValidRep(rep)
  {
    match rep
    case BytesRep(name, value) => s.(chalData := value[..16])
    case IntRep(name, number) => if Named(name, "cM") then s.(chalMode := 0) else s.(secMode := 0)
  }

  function TakeReps(s: Server, reps: seq<Rep>): (r: Server)
    requires forall i :: 0 <= i < |reps| ==> ValidRep(reps[i])
  {
    if reps == [] then s else TakeRep(TakeReps(s, reps[..|reps| - 1]), reps[|reps| - 1])
  }

  /** All properties valid, and three of them, counted down in 8 bits whatever their names. */
  predicate ValidPayload(reps: seq<Rep>) {
    (forall i :: 0 <= i < |reps| ==> ValidRep(reps[i])) && |reps| % 0x100 == 3
  }

  datatype AccessoryDevice = AccessoryDevice(server: Server, window: Window, nv: Option<Window>, table: Table)

  function InitialWindow(): (r: Window) {
    Blank(WINDOW_BEFORE_CENTER, WINDOW_AFTER_CENTER)
  }

  ghost predicate AccessoryInv(a: AccessoryDevice) {
    && Inv(a.table)
    && Formed(a.window) && a.window.below == WINDOW_BEFORE_CENTER && a.window.above == WINDOW_AFTER_CENTER
    && a.window.center >= WINDOW_BEFORE_CENTER
    && (if a.nv.Some? then a.nv.value == a.window else a.window == InitialWindow())
  }

  function RestartAccessory(a: AccessoryDevice): (r: AccessoryDevice)
    requires Sized(a.table)
  {
    AccessoryDevice(IDLE_SERVER, if a.nv.Some? then a.nv.value else InitialWindow(), a.nv, Links.Init(a.table.nv))
  }

  /** NoReply: the search for an index never ends. */
  datatype Reply = BadRequest | Created(respData: Bytes) | NoReply

  /** The link an accepted challenge makes: who asked, under which key, at the cost of which index. */
  datatype Accepted = Accepted(key: Key, salt: Salt, index: U32)

  /** The challenge the accessory has received, checked against every unused index of the window. */
  function Validated(mac: Mac, originKey: Key, w: Window, chal: ChalData): (r: Search)
    requires Formed(w)
  {
    Searched(w, IndexCheck(mac, originKey, chal[..8], chal[8..]))
  }

  /** The POST handler of the accessory. */
  function ServerPost(mac: Mac, originKey: Key, a: AccessoryDevice, from: NxId, reps: seq<Rep>)
    : (r: (AccessoryDevice, Reply, Option<Accepted>))
    requires Sized(a.table) && Formed(a.window)
  {
    if !ValidPayload(reps) then (a.(server := IDLE_SERVER), BadRequest, None)
    else Challenged(mac, originKey, a.(server := TakeReps(a.server.(active := true), reps)), from)
  }

  function Challenged(mac: Mac, originKey: Key, a: AccessoryDevice, from: NxId)
    : (r: (AccessoryDevice, Reply, Option<Accepted>))
    requires Sized(a.table) && Formed(a.window)
  {
    var salt, found := a.server.chalData[..8], Validated(mac, originKey, a.window, a.server.chalData);
    match found
    case Endless => (a, NoReply, None)
    case NotFound => (a.(server := IDLE_SERVER), BadRequest, None)
    case Found(index) =>
      var key := LinkKey(mac, ChallengeInt(mac, originKey, index), salt);
      var (table, queued) := CreateLink(a.table, from, OperatingMode.Accessory, a.server.secMode, key, 0);
      if !queued then (a.(server := IDLE_SERVER, table := table), BadRequest, None)
      else
        var resp, w := mac(key, Inverted(salt)), SetId(a.window, index).0;
        (AccessoryDevice(a.server.(respData := resp, active := false), w, Some(w), table), Created(resp),
         Some(Accepted(key, salt, index)))
  }

  function ServerProcess(s: Server, dt: U32): (r: Server) {
    if !s.active then s
    else
      var since := (s.sinceInit + dt) % 0x1_0000;
      if since > ACCESSORY_TIMEOUT_SECONDS then IDLE_SERVER else s.(sinceInit := since)
  }

  // ---------------------------------------------------------------- the controller

  datatype Client = Client(
    active: bool, key: Key, salt: Salt, chalData: ChalData, secMode: U8, sinceInit: U16, lastPost: U16)

  const ZERO_CLIENT := Client(false, ZERO_KEY, ZERO_SALT, ZERO_KEY, 0, 0, 0)

  datatype ControllerDevice = ControllerDevice(clients: seq<Client>, table: Table)

  function FirstIdleFrom(clients: seq<Client>, i: nat): (r: Option<nat>)
    requires i <= |clients|
    ensures r.Some? ==> i <= r.value < |clients| && !clients[r.value].active && forall j :: i <= j < r.value ==> clients[j].active
    ensures r.None? ==> forall j :: i <= j < |clients| ==> clients[j].active
    decreases |clients| - i
  {
    if i == |clients| then None else if !clients[i].active then Some(i) else FirstIdleFrom(clients, i + 1)
  }

  function Challenge(mac: Mac, challenge: U32, salt: Salt): (r: Client) {
    var key := LinkKey(mac, challenge, salt);
    Client(true, key, salt, salt + mac(key, salt), 0, 0, 0)
  }

  /** link_mode_3(): a command with the accessory's digits starts a handshake in the first idle slot. */
  function StartHandshake(mac: Mac, clients: seq<Client>, challenge: U32, salt: Salt): (r: (seq<Client>, bool)) {
    var idle := FirstIdleFrom(clients, 0);
    if idle.None? then (clients, false) else (clients[idle.value := Challenge(mac, challenge, salt)], true)
  }

  /** The payload of the POST a controller sends. */
  function Request(chalData: ChalData): (r: seq<Rep>) {
    [BytesRep("cD", chalData), IntRep("cM", 0), IntRep("lS", 0)]
  }

  /** One client slot of process(): the slot afterwards and whether it posts its challenge again. */
  function TickClient(c: Client, dt: U32): (r: (Client, bool)) {
    if !c.active then (c, false)
    else
      var since := (c.sinceInit + dt) % 0x1_0000;
      if since > CONTROLLER_TIMEOUT_SECONDS then (ZERO_CLIENT, false)
      else if (since - c.lastPost) % 0x1_0000 >= RETRY_SECONDS then (c.(sinceInit := since, lastPost := since), true)
      else (c.(sinceInit := since), false)
  }

  /** One property of a response: the controller afterwards, and whether it reads on. */
  function TakeResponse(mac: Mac, c: ControllerDevice, i: nat, from: NxId, rep: Rep): (r: (ControllerDevice, bool))
    requires i < |c.clients| && Sized(c.table)
  {
    if !Named(rep.name, "rD") then (c, true)
    else if !rep.BytesRep? || |rep.value| % 0x100 != 8 then (c, false)
    else
      var client := c.clients[i];
      if mac(client.key, Inverted(client.salt)) != rep.value[..8] then (c, false)
      else
        var (table, queued) := CreateLink(c.table, from, OperatingMode.Controller, client.secMode, client.key, 0);
        if !queued then (c.(table := table), false)
        else (ControllerDevice(c.clients[i := ZERO_CLIENT], table), true)
  }

  function TakeResponses(mac: Mac, c: ControllerDevice, i: nat, from: NxId, reps: seq<Rep>): (r: (ControllerDevice, bool))
    requires i < |c.clients| && Sized(c.table)
    ensures |r.0.clients| == |c.clients| && Sized(r.0.table)
  {
    if reps == [] then (c, true)
    else
      var (c1, on) := TakeResponses(mac, c, i, from, reps[..|reps| - 1]);
      if !on then (c1, false) else TakeResponse(mac, c1, i, from, reps[|reps| - 1])
  }

  /** The handler for responses to the POST of client i. */
  function ClientPost(mac: Mac, c: ControllerDevice, i: nat, from: NxId, created: bool, reps: seq<Rep>): (r: ControllerDevice)
    requires i < |c.clients| && Sized(c.table)
  {
    if !created then c else TakeResponses(mac, c, i, from, reps).0
  }

  /** All client slots after process(). */
  function Ticked(clients: seq<Client>, dt: U32): (r: seq<Client>) {
    seq(|clients|, i requires 0 <= i < |clients| => TickClient(clients[i], dt).0)
  }

  /** A link was put in the empty queue. */
  predicate Queued(before: Table, after: Table) {
    !before.pendingAdd && after.pendingAdd
  }

  // ---------------------------------------------------------------- what keys and check values are made of

  /** Salt and digits as they are laid out for deriving a key: eight bytes, then the digits from the low byte up. */
  ghost predicate IsMaterial(material: Bytes, challenge: U32, salt: Salt) {
    |material| == 12 && material[..8] == salt && LeValue(material[8..]) == challenge
  }

  lemma MaterialOf(challenge: U32, salt: Salt) returns (material: Bytes)
    ensures IsMaterial(material, challenge, salt) && material == salt + Le32(challenge)
  {
    material := salt + Le32(challenge);
    Le32Meaning(challenge);
  }

  /** Each half of a link key is the check value of the salt and the digits, under its own derivation key. */
  lemma LinkKeyHalves(mac: Mac, challenge: U32, salt: Salt) returns (material: Bytes)
    ensures IsMaterial(material, challenge, salt) && DERIVATION_KEY_1 != DERIVATION_KEY_2
    ensures LinkKey(mac, challenge, salt)[..8] == mac(DERIVATION_KEY_1, material)
    ensures LinkKey(mac, challenge, salt)[8..] == mac(DERIVATION_KEY_2, material)
  {
    material := MaterialOf(challenge, salt);
  }

  /** Two different materials have the same check values under both derivation keys. */
  ghost predicate DerivationCollides(mac: Mac, challenge: U32, salt: Salt, challenge': U32, salt': Salt) {
    exists a: Bytes, b: Bytes ::
      && a != b && IsMaterial(a, challenge, salt) && IsMaterial(b, challenge', salt')
      && mac(DERIVATION_KEY_1, a) == mac(DERIVATION_KEY_1, b) && mac(DERIVATION_KEY_2, a) == mac(DERIVATION_KEY_2, b)
  }

  /** Equal link keys come from the same digits and salt, unless the derivation collides on them. */
  lemma LinkKeyInjective(mac: Mac, challenge: U32, salt: Salt, challenge': U32, salt': Salt)
    requires LinkKey(mac, challenge, salt) == LinkKey(mac, challenge', salt')
    ensures (challenge == challenge' && salt == salt') || DerivationCollides(mac, challenge, salt, challenge', salt')
  {
    var a := LinkKeyHalves(mac, challenge, salt);
    var b := LinkKeyHalves(mac, challenge', salt');
    hide LinkKey;
    if a != b {
      assert DerivationCollides(mac, challenge, salt, challenge', salt');
    }
  }

  /** The digits of an index are the last six decimal digits of the low four bytes of its check value. */
  lemma ChallengeIntMeaning(mac: Mac, originKey: Key, index: U32)
    ensures exists bytes: Bytes ::
      && |bytes| == 4 && LeValue(bytes) == index
      && ChallengeInt(mac, originKey, index) == LeValue(mac(originKey, bytes)[..4]) % 1000000
  {
    Le32Meaning(index);
    LeValueOfFour(mac(originKey, Le32(index))[..4]);
    hide Le32;
  }

  /** Every bit is the other one. */
  ghost predicate IsComplement(a: Salt, b: Salt) {
    a != b && forall k :: 0 <= k < 8 ==> a[k] as int + b[k] as int == 0xFF
  }

  /** Answering a challenge with its own check value needs a collision: the response is over the complement of the salt. */
  lemma EchoNeedsCollision(mac: Mac, c: ControllerDevice, i: nat, from: NxId)
    requires Sized(c.table) && i < |c.clients| && c.clients[i].active
    requires c.clients[i].chalData == c.clients[i].salt + mac(c.clients[i].key, c.clients[i].salt)
    ensures var client := c.clients[i];
      var c' := ClientPost(mac, c, i, from, true, [BytesRep("rD", client.chalData[8..])]);
      Queued(c.table, c'.table) ==>
        exists other: Salt :: IsComplement(other, client.salt) && mac(client.key, other) == mac(client.key, client.salt)
  {
    var client := c.clients[i];
    var rep := BytesRep("rD", client.chalData[8..]);
    assert client.chalData[8..] == mac(client.key, client.salt);
    assert [rep][..0] == [] && Inverted(client.salt)[0] != client.salt[0];
    assert TakeResponses(mac, c, i, from, [rep]).0 == TakeResponse(mac, c, i, from, rep).0;
    hide Inv, CreateLink;
    if Queued(c.table, ClientPost(mac, c, i, from, true, [rep]).table) {
      assert IsComplement(Inverted(client.salt), client.salt);
      assert mac(client.key, Inverted(client.salt)) == mac(client.key, client.salt);
    }
  }

  // ---------------------------------------------------------------- one handler at a time

  lemma MarkedWindow(w: Window, index: U32, id: U32)
    requires Formed(w) && w.below <= w.center
    ensures var (w', _) := SetId(w, index);
      && Formed(w') && w'.center >= w.center && w'.below == w.below && w'.above == w.above
      && (Consumed(w, id) ==> Consumed(w', id))
      && (Within(w, index) || Consumed(w, index) ==> Consumed(w', index))
  {
    WithinMeaning(w, index);
    if Within(w, index) {
      SetIdMarks(w, index, id);
      SetIdMarks(w, index, index);
    } else {
      SetIdOutside(w, index);
    }
  }

  /** Which indices answer the challenge that is checked for a payload. */
  function Answers(mac: Mac, originKey: Key, a: AccessoryDevice, reps: seq<Rep>): (check: U32 -> bool)
    requires ValidPayload(reps)
  {
    var chal := TakeReps(a.server.(active := true), reps).chalData;
    IndexCheck(mac, originKey, chal[..8], chal[8..])
  }

  /**
   * A challenge keeps the invariant. It is accepted at the cost of an index that answers it, which was used
   * before exactly when the window ends at UINT32_MAX and no usable index of it answers; otherwise it is one of
   * the window.
   */
  lemma ServerPostInv(mac: Mac, originKey: Key, a: AccessoryDevice, from: NxId, reps: seq<Rep>, id: U32)
    requires AccessoryInv(a)
    ensures var (a', _, accepted) := ServerPost(mac, originKey, a, from, reps);
      && AccessoryInv(a') && a'.window.center >= a.window.center
      && (Consumed(a.window, id) ==> Consumed(a'.window, id))
      && (accepted.Some? ==>
            var index := accepted.value.index;
            && ValidPayload(reps) && Answers(mac, originKey, a, reps)(index) && Consumed(a'.window, index)
            && (Consumed(a.window, index) <==> AtTop(a.window) && Least(a.window, Answers(mac, originKey, a, reps)).None?)
            && (Consumed(a.window, index) <==> !Within(a.window, index)))
  {
    hide Inv, SetId, Consumed, Within, CreateLink, LinkKey, ChallengeInt, IndexCheck, TakeReps, Searched, Least;
    if ValidPayload(reps) {
      var s, check := TakeReps(a.server.(active := true), reps), Answers(mac, originKey, a, reps);
      if Searched(a.window, check).Found? {
        var index := Searched(a.window, check).id;
        SearchedMeaning(a.window, check);
        MarkedWindow(a.window, index, id);
        var key := LinkKey(mac, ChallengeInt(mac, originKey, index), s.chalData[..8]);
        CreateLinkInv(a.table, from, OperatingMode.Accessory, s.secMode, key, 0);
      }
    }
  }

  /** An accepted challenge uses up its index and what falls below the window, and nothing else; no other POST uses any. */
  lemma ServerPostUsesUp(mac: Mac, originKey: Key, a: AccessoryDevice, from: NxId, reps: seq<Rep>, id: U32)
    requires AccessoryInv(a)
    ensures var (a', reply, accepted) := ServerPost(mac, originKey, a, from, reps);
      && Formed(a'.window) && (reply.Created? ==> reply.respData == a'.server.respData)
      && (accepted.None? || !Within(a.window, accepted.value.index) ==> a'.window == a.window)
      && (accepted.Some? && Within(a.window, accepted.value.index) ==>
            && a'.window.center == Max(a.window.center, accepted.value.index)
            && (Consumed(a'.window, id) <==>
                  id == accepted.value.index || id < a'.window.center - WINDOW_BEFORE_CENTER || Consumed(a.window, id)))
  {
    hide Inv, SetId, Consumed, CreateLink, LinkKey, ChallengeInt, IndexCheck, TakeReps, Searched;
    if ValidPayload(reps) {
      var s := TakeReps(a.server.(active := true), reps);
      var found := Validated(mac, originKey, a.window, s.chalData);
      if found.Found? {
        WithinMeaning(a.window, found.id);
        if Within(a.window, found.id) {
          SetIdMarks(a.window, found.id, id);
        } else {
          SetIdOutside(a.window, found.id);
        }
      }
    }
  }

  /** With blank memory exactly the indices up to 23 can be used, and a restart takes over the stored window. */
  lemma FirstIndices(a: AccessoryDevice, id: U32)
    requires Sized(a.table)
    ensures a.nv.None? ==> Formed(RestartAccessory(a).window) && (Usable(RestartAccessory(a).window, id) <==> id <= 23)
    ensures a.nv.Some? ==> RestartAccessory(a).window == a.nv.value
    ensures !RestartAccessory(a).server.active && RestartAccessory(a).nv == a.nv
  {
    WithinMeaning(InitialWindow(), id);
  }

  /** Sizes and numbers are compared in 8 bits: a multiple of 256 more or less makes no difference. */
  ghost predicate Same8(a: int, b: int) {
    exists k: int :: a == b + 0x100 * k
  }

  lemma Same8Iff(a: int, b: int)
    requires 0 <= b < 0x100
    ensures Same8(a, b) <==> a % 0x100 == b
  {
    if a % 0x100 == b { assert a == b + 0x100 * (a / 0x100); }
    if k: int :| a == b + 0x100 * k { assert (b + 0x100 * k) % 0x100 == b; }
  }

  /** The properties an accessory takes: challenge data of 16 bytes, and challenge and security modes of 0; and three of them. */
  lemma ValidPayloadMeaning(reps: seq<Rep>)
    ensures forall rep: Rep :: ValidRep(rep) <==>
      || (rep.BytesRep? && "cD" <= rep.name && Same8(|rep.value|, 16))
      || (rep.IntRep? && ("cM" <= rep.name || "lS" <= rep.name) && Same8(rep.number, 0))
    ensures ValidPayload(reps) <==> Same8(|reps|, 3) && forall rep :: rep in reps ==> ValidRep(rep)
  {
    forall rep: Rep ensures ValidRep(rep) <==>
      || (rep.BytesRep? && "cD" <= rep.name && Same8(|rep.value|, 16))
      || (rep.IntRep? && ("cM" <= rep.name || "lS" <= rep.name) && Same8(rep.number, 0))
    {
      if rep.BytesRep? { Same8Iff(|rep.value|, 16); }
      if rep.IntRep? { Same8Iff(rep.number, 0); }
      hide Same8;
    }
    Same8Iff(|reps|, 3);
    hide Same8, ValidRep;
  }

  // ---------------------------------------------------------------- which properties a payload names

  datatype Property = ChallengeData | ChallengeMode | SecurityMode

  function PropertyOf(rep: Rep): (p: Property)
    requires ValidRep(rep)
  {
    if rep.BytesRep? then ChallengeData else if Named(rep.name, "cM") then ChallengeMode else SecurityMode
  }

  predicate Names(reps: seq<Rep>, p: Property)
    requires forall i :: 0 <= i < |reps| ==> ValidRep(reps[i])
  {
    exists i :: 0 <= i < |reps| && PropertyOf(reps[i]) == p
  }

  /** Properties are only counted; three of them name all three kinds exactly when no two name the same. */
  lemma NamesAllThreeIff(reps: seq<Rep>)
    requires ValidPayload(reps) && |reps| == 3
    ensures (forall p: Property :: Names(reps, p))
      <==> forall i, j :: 0 <= i < j < 3 ==> PropertyOf(reps[i]) != PropertyOf(reps[j])
  {
    hide ValidRep, PropertyOf;
    var a, b, c := PropertyOf(reps[0]), PropertyOf(reps[1]), PropertyOf(reps[2]);
    assert (forall i, j :: 0 <= i < j < 3 ==> PropertyOf(reps[i]) != PropertyOf(reps[j])) <==> a != b && a != c && b != c;
    if a != b && a != c && b != c {
      forall p: Property ensures Names(reps, p) {
        assert p == a || p == b || p == c;
      }
    } else {
      var missing: Property :| missing != a && missing != b && missing != c by {
        assert ChallengeData.ChallengeData? && ChallengeMode.ChallengeMode? && SecurityMode.SecurityMode?;
      }
      assert !Names(reps, missing);
    }
  }

  /** Three challenge modes are a valid payload, and the challenge checked is the one left from before. */
  lemma ThreeModesAreValid(s: Server)
    ensures var reps := [IntRep("cM", 0), IntRep("cM", 0), IntRep("cM", 0)];
      ValidPayload(reps) && TakeReps(s, reps).chalData == s.chalData
  {
    var reps := [IntRep("cM", 0), IntRep("cM", 0), IntRep("cM", 0)];
    NoChallengeKept(s, reps);
  }

  lemma {:induction false} NoChallengeKept(s: Server, reps: seq<Rep>)
    requires forall i :: 0 <= i < |reps| ==> ValidRep(reps[i]) && !reps[i].BytesRep?
    ensures TakeReps(s, reps).chalData == s.chalData
  {
    hide Named;
    if reps != [] { NoChallengeKept(s, reps[..|reps| - 1]); }
  }

  lemma {:induction false} ChallengeReplaced(s: Server, t: Server, reps: seq<Rep>, i: nat)
    requires forall k :: 0 <= k < |reps| ==> ValidRep(reps[k])
    requires i < |reps| && reps[i].BytesRep?
    ensures TakeReps(s, reps).chalData == TakeReps(t, reps).chalData
  {
    hide Named;
    if i < |reps| - 1 { ChallengeReplaced(s, t, reps[..|reps| - 1], i); }
  }

  /** The challenge a valid payload leads to is independent of what came before exactly when it names one. */
  lemma ChallengeIsFromPayloadIff(reps: seq<Rep>)
    requires ValidPayload(reps)
    ensures (forall s: Server, t: Server :: TakeReps(s, reps).chalData == TakeReps(t, reps).chalData)
      <==> Names(reps, ChallengeData)
  {
    if i :| 0 <= i < |reps| && PropertyOf(reps[i]) == ChallengeData {
      forall s: Server, t: Server ensures TakeReps(s, reps).chalData == TakeReps(t, reps).chalData {
        ChallengeReplaced(s, t, reps, i);
      }
    } else {
      assert forall i :: 0 <= i < |reps| ==> !reps[i].BytesRep? by {
        forall i | 0 <= i < |reps| ensures !reps[i].BytesRep? { assert PropertyOf(reps[i]) != ChallengeData; }
      }
      var s, t := IDLE_SERVER, IDLE_SERVER.(chalData := ZERO_INDEX_CHALLENGE);
      NoChallengeKept(s, reps);
      NoChallengeKept(t, reps);
      assert ZERO_KEY[8] != ZERO_INDEX_CHALLENGE[8];
    }
  }

  // ---------------------------------------------------------------- a window that ends at the top id

  /** Check values under which index 0, and no other, answers the challenge below. */
  function ZeroIndexMac(): (r: Mac) {
    (key: Key, m: Bytes) => [if m == Le32(0) then 1 else if |m| == 12 then m[8] else key[0], 0, 0, 0, 0, 0, 0, 0]
  }

  const ZERO_INDEX_CHALLENGE: ChalData := ZERO_SALT + [1, 0, 0, 0, 0, 0, 0, 0]

  lemma OnlyIndexZero(index: U32)
    ensures IndexCheck(ZeroIndexMac(), ZERO_KEY, ZERO_SALT, ZERO_INDEX_CHALLENGE[8..])(index) <==> index == 0
  {
    var mac := ZeroIndexMac();
    var challenge := if index == 0 then 1 else 0;
    assert Le32(index) == Le32(0) <==> index == 0;
    assert ChallengeInt(mac, ZERO_KEY, index) == challenge;
    assert (ZERO_SALT + Le32(challenge))[8] == challenge;
    assert LinkKey(mac, challenge, ZERO_SALT)[0] == challenge;
    assert mac(LinkKey(mac, challenge, ZERO_SALT), ZERO_SALT)[0] == challenge;
    assert ZERO_INDEX_CHALLENGE[8..][0] == 1;
    if index == 0 {
      assert mac(LinkKey(mac, challenge, ZERO_SALT), ZERO_SALT) == ZERO_INDEX_CHALLENGE[8..];
    }
  }

  lemma TopWindowFindsZero(w: Window)
    requires Formed(w) && w.below == WINDOW_BEFORE_CENTER && w.above == WINDOW_AFTER_CENTER
    requires w.center == UINT32_MAX - WINDOW_AFTER_CENTER
    ensures Validated(ZeroIndexMac(), ZERO_KEY, w, ZERO_INDEX_CHALLENGE) == Found(0)
  {
    var check := IndexCheck(ZeroIndexMac(), ZERO_KEY, ZERO_SALT, ZERO_INDEX_CHALLENGE[8..]);
    assert ZERO_INDEX_CHALLENGE[..8] == ZERO_SALT;
    assert forall k :: 0 <= k < 24 ==> CounterAt(w, k) == w.center - 15 + k;
    assert CounterAt(w, 24) == 0 && !Within(w, 0);
    hide IndexCheck, ZeroIndexMac, CounterAt, Within;
    forall k | 0 <= k < 24 ensures !check(CounterAt(w, k)) { OnlyIndexZero(CounterAt(w, k)); }
    OnlyIndexZero(0);
    SearchSkips(w, check, 0, 24);
  }

  /**
   * When the window ends at UINT32_MAX the counter wraps around and finds index 0 far below the window:
   * the challenge is accepted for a used index, and marking it changes nothing.
   */
  lemma TopWindowReusesIndex(a: AccessoryDevice, from: NxId)
    requires AccessoryInv(a) && a.window.center == UINT32_MAX - WINDOW_AFTER_CENTER
    ensures var (a', _, accepted) := ServerPost(ZeroIndexMac(), ZERO_KEY, a, from, Request(ZERO_INDEX_CHALLENGE));
      && Consumed(a.window, 0) && a'.window == a.window
      && (accepted.Some? ==> accepted.value.index == 0)
      && (accepted.Some? <==> !a.table.pendingAdd && MakeRoom(a.table, from, OperatingMode.Accessory).Some?)
  {
    TopWindowFindsZero(a.window);
    RequestIsTaken(a.server.(active := true), ZERO_INDEX_CHALLENGE);
    SetIdOutside(a.window, 0);
    hide Inv, IndexCheck, TakeReps, LinkKey, ChallengeInt, ZeroIndexMac, MakeRoom, Searched, SetId, Validated;
  }

  /** An honest request is taken whole: the accessory checks exactly the challenge that was sent. */
  lemma RequestIsTaken(s: Server, chalData: ChalData)
    ensures ValidPayload(Request(chalData))
    ensures TakeReps(s, Request(chalData)) == s.(chalData := chalData, chalMode := 0, secMode := 0)
  {
    var reps := Request(chalData);
    assert reps[..2] == [reps[0], reps[1]] && reps[..2][..1] == [reps[0]] && reps[..2][..1][..0] == [];
    assert "cM"[0] != "lS"[0];
    assert TakeReps(s, reps[..2][..1]) == TakeRep(s, reps[0]);
    assert TakeReps(s, reps[..2]) == TakeRep(TakeRep(s, reps[0]), reps[1]);
  }

  lemma RequestAnswers(mac: Mac, originKey: Key, a: AccessoryDevice, chalData: ChalData)
    ensures ValidPayload(Request(chalData))
    ensures Answers(mac, originKey, a, Request(chalData)) == IndexCheck(mac, originKey, chalData[..8], chalData[8..])
  {
    RequestIsTaken(a.server.(active := true), chalData);
    hide IndexCheck, TakeReps, ValidPayload, Request;
  }

  /**
   * What an answered challenge means: its check value is right under the key of an index, a link to the
   * sender under that key is queued, and the response is the check value of the inverted salt.
   */
  lemma AnsweredChallenge(mac: Mac, originKey: Key, a: AccessoryDevice, from: NxId, chalData: ChalData)
    requires AccessoryInv(a)
    ensures var (a', reply, accepted) := ServerPost(mac, originKey, a, from, Request(chalData));
      && (accepted.Some? <==> reply.Created?)
      && (accepted.Some? ==>
            && accepted.value.salt == chalData[..8]
            && accepted.value.key == LinkKey(mac, ChallengeInt(mac, originKey, accepted.value.index), chalData[..8])
            && mac(accepted.value.key, chalData[..8]) == chalData[8..]
            && reply == Created(mac(accepted.value.key, Inverted(chalData[..8]))))
      && (accepted.Some? <==> Queued(a.table, a'.table))
      && (accepted.Some? ==>
            a'.table.pending == Link(from, OperatingMode.Accessory, COSE_MAC0_SIPHASH, 0, 0, accepted.value.key, 0))
  {
    RequestIsTaken(a.server.(active := true), chalData);
    assert Sized(a.table);
    hide Inv, SetId, Searched, Consumed, Within, LinkKey, ChallengeInt, TakeReps, MakeRoom;
    var found := Validated(mac, originKey, a.window, chalData);
    if found.Found? {
      SearchedMeaning(a.window, IndexCheck(mac, originKey, chalData[..8], chalData[8..]));
      var key := LinkKey(mac, ChallengeInt(mac, originKey, found.id), chalData[..8]);
      QueuedLink(a.table, from, OperatingMode.Accessory, 0, key);
    }
  }

  /** create_link() says yes exactly when it puts a link in the empty queue, and then it is that link. */
  lemma QueuedLink(t: Table, id: NxId, mode: OperatingMode, securityMode: U8, key: Key)
    requires Sized(t)
    ensures var (t', queued) := CreateLink(t, id, mode, securityMode, key, 0);
      && (queued <==> Queued(t, t'))
      && (queued ==> t'.pending == Link(id, mode, securityMode, 0, 0, key, 0))
  {
    hide FindFrom, OldestAccessory;
  }

  /** A controller queues a link exactly when the response has the check value of its client and the table takes the link. */
  lemma TakenResponse(mac: Mac, c: ControllerDevice, i: nat, from: NxId, respData: Tag)
    requires Inv(c.table) && i < |c.clients|
    ensures var c' := ClientPost(mac, c, i, from, true, [BytesRep("rD", respData)]);
      var client := c.clients[i];
      var queued := Queued(c.table, c'.table);
      && Inv(c'.table)
      && (queued <==>
            && mac(client.key, Inverted(client.salt)) == respData
            && CreateLink(c.table, from, OperatingMode.Controller, client.secMode, client.key, 0).1)
      && (queued ==> c'.table.pending == Link(from, OperatingMode.Controller, client.secMode, 0, 0, client.key, 0))
      && c'.clients == if queued then c.clients[i := ZERO_CLIENT] else c.clients
  {
    var reps := [BytesRep("rD", respData)];
    var client := c.clients[i];
    assert reps[..0] == [] && respData[..8] == respData;
    assert TakeResponses(mac, c, i, from, reps[..0]) == (c, true);
    assert ClientPost(mac, c, i, from, true, reps) == TakeResponse(mac, c, i, from, reps[0]).0;
    hide MakeRoom, FindFrom;
    CreateLinkInv(c.table, from, OperatingMode.Controller, client.secMode, client.key, 0);
    QueuedLink(c.table, from, OperatingMode.Controller, client.secMode, client.key);
    hide Inv;
  }

  /** Every answered POST leaves the server idle, so the timeout of the accessory has nothing to end. */
  lemma PostLeavesServerIdle(mac: Mac, originKey: Key, a: AccessoryDevice, from: NxId, reps: seq<Rep>, dt: U32)
    requires Sized(a.table) && Formed(a.window)
    ensures var (a', reply, _) := ServerPost(mac, originKey, a, from, reps);
      !reply.NoReply? ==> !a'.server.active && ServerProcess(a'.server, dt) == a'.server
  {
    hide TakeReps, SetId, CreateLink, LinkKey, IndexCheck, Searched;
  }

  // ---------------------------------------------------------------- which property of a response decides

  lemma {:induction false} OthersAreSkipped(mac: Mac, c: ControllerDevice, i: nat, from: NxId, reps: seq<Rep>)
    requires i < |c.clients| && Sized(c.table) && forall k :: 0 <= k < |reps| ==> !("rD" <= reps[k].name)
    ensures TakeResponses(mac, c, i, from, reps) == (c, true)
  {
    if reps != [] { OthersAreSkipped(mac, c, i, from, reps[..|reps| - 1]); }
  }

  lemma {:induction false} NothingAfterStop(mac: Mac, c: ControllerDevice, i: nat, from: NxId, reps: seq<Rep>, n: nat)
    requires i < |c.clients| && Sized(c.table) && n <= |reps| && !TakeResponses(mac, c, i, from, reps[..n]).1
    ensures TakeResponses(mac, c, i, from, reps) == TakeResponses(mac, c, i, from, reps[..n])
  {
    hide TakeResponse;
    if n == |reps| {
      assert reps[..n] == reps;
    } else {
      assert reps[..|reps| - 1][..n] == reps[..n];
      NothingAfterStop(mac, c, i, from, reps[..|reps| - 1], n);
    }
  }

  /**
   * The first property named as a response decides: if it is no byte string of 8 bytes modulo 256, or not the check value
   * of the inverted salt, or the table takes no link, then nothing is queued, whatever follows it.
   */
  lemma FirstResponseDecides(mac: Mac, c: ControllerDevice, i: nat, from: NxId, reps: seq<Rep>, n: nat)
    requires Inv(c.table) && i < |c.clients| && n < |reps| && "rD" <= reps[n].name
    requires forall k :: 0 <= k < n ==> !("rD" <= reps[k].name)
    requires
      || !reps[n].BytesRep? || |reps[n].value| % 0x100 != 8
      || reps[n].value[..8] != mac(c.clients[i].key, Inverted(c.clients[i].salt))
      || !CreateLink(c.table, from, OperatingMode.Controller, c.clients[i].secMode, c.clients[i].key, 0).1
    ensures ClientPost(mac, c, i, from, true, reps) == c
  {
    var front := reps[..n + 1];
    assert front[..n] == reps[..n] && front[n] == reps[n];
    OthersAreSkipped(mac, c, i, from, front[..n]);
    RefusedChangesNothing(c, i, from);
    assert TakeResponse(mac, c, i, from, reps[n]) == (c, false) by { hide CreateLink, Inv; }
    assert TakeResponses(mac, c, i, from, front) == (c, false) by { hide TakeResponse; }
    NothingAfterStop(mac, c, i, from, reps, n + 1);
  }

  lemma RefusedChangesNothing(c: ControllerDevice, i: nat, from: NxId)
    requires Sized(c.table) && i < |c.clients|
    ensures var (table, yes) := CreateLink(c.table, from, OperatingMode.Controller, c.clients[i].secMode, c.clients[i].key, 0);
      !yes ==> table == c.table
  {
    hide MakeRoom;
  }

  // ---------------------------------------------------------------- timers

  /** The slot of a controller after calls of process() with nothing else happening. */
  function TickedFor(c: Client, dts: seq<U32>): (r: Client) {
    if dts == [] then c else TickClient(TickedFor(c, dts[..|dts| - 1]), dts[|dts| - 1]).0
  }

  /** A slot that has waited so long since the handshake began. */
  ghost predicate HasWaited(c: Client, c': Client, since: nat) {
    if since <= 3600 then c'.active && c'.sinceInit == since && c'.key == c.key && c'.salt == c.salt && c'.chalData == c.chalData
    else c' == ZERO_CLIENT
  }

  lemma WaitsOn(c: Client, c': Client, since: nat, dt: U32)
    requires HasWaited(c, c', since) && dt <= 0xFFFF - 3600
    ensures HasWaited(c, TickClient(c', dt).0, since + dt)
  {
  }

  /** A controller that hears nothing gives up after an hour and not before, however process() is called within it. */
  lemma {:induction false} ClientGivesUp(c: Client, dts: seq<U32>)
    requires c.active && c.sinceInit <= 3600 && forall k :: 0 <= k < |dts| ==> dts[k] <= 0xFFFF - 3600
    ensures HasWaited(c, TickedFor(c, dts), c.sinceInit + Total(dts))
  {
    if dts != [] {
      ClientGivesUp(c, dts[..|dts| - 1]);
      hide TickedFor, HasWaited, TickClient;
      WaitsOn(c, TickedFor(c, dts[..|dts| - 1]), c.sinceInit + Total(dts[..|dts| - 1]), dts[|dts| - 1]);
      LastTick(c, dts);
    }
  }

  lemma LastTick(c: Client, dts: seq<U32>)
    requires dts != []
    ensures TickedFor(c, dts) == TickClient(TickedFor(c, dts[..|dts| - 1]), dts[|dts| - 1]).0
  {
    hide TickClient;
  }

  /** n calls of process() a second apart: the slot and how often it posted. */
  function Seconds(c: Client, n: nat): (r: (Client, nat)) {
    if n == 0 then (c, 0)
    else
      var (c1, posts) := Seconds(c, n - 1);
      var (c2, post) := TickClient(c1, 1);
      (c2, posts + if post then 1 else 0)
  }

  /** Called every second, a handshake posts its challenge every five seconds for the hour, so 720 times in all. */
  lemma PostsEveryFiveSeconds(mac: Mac, challenge: U32, salt: Salt, n: nat)
    ensures var (c, posts) := Seconds(Challenge(mac, challenge, salt), n);
      && posts == Min(n, 3600) / 5
      && (c.active <==> n <= 3600) && (n > 3600 ==> c == ZERO_CLIENT)
  {
    var c := Challenge(mac, challenge, salt);
    hide LinkKey, Seconds, Challenge;
    assert c.active && c.sinceInit == c.lastPost == 0 by { FreshTimers(mac, challenge, salt); }
    if n <= 3600 {
      WithinTheHour(c, n, n / 5, n % 5);
    } else {
      AfterTheHour(c, n);
    }
  }

  lemma FreshTimers(mac: Mac, challenge: U32, salt: Salt)
    ensures var c := Challenge(mac, challenge, salt); c.active && c.sinceInit == c.lastPost == 0
  {
    hide LinkKey;
  }

  lemma {:induction false} WithinTheHour(c: Client, n: nat, q: nat, r: nat)
    requires c.active && c.sinceInit == c.lastPost == 0 && n == 5 * q + r <= 3600 && r < 5
    ensures var (c', posts) := Seconds(c, n);
      posts == q && c'.active && c'.sinceInit == n && c'.lastPost == 5 * q
  {
    hide TickClient;
    if n > 0 {
      var q', r' := if r == 0 then q - 1 else q, if r == 0 then 4 else r - 1;
      WithinTheHour(c, n - 1, q', r');
      OneSecond(Seconds(c, n - 1).0, q', r');
    }
  }

  lemma {:induction false} AfterTheHour(c: Client, n: nat)
    requires c.active && c.sinceInit == c.lastPost == 0 && n > 3600
    ensures Seconds(c, n) == (ZERO_CLIENT, 720)
  {
    if n == 3601 {
      WithinTheHour(c, 3600, 720, 0);
    } else {
      AfterTheHour(c, n - 1);
    }
  }

  lemma OneSecond(c: Client, q: nat, r: nat)
    requires c.active && r < 5 && c.sinceInit == 5 * q + r < 3600 && c.lastPost == 5 * q
    ensures var (c', posts) := TickClient(c, 1);
      && c'.active && c'.sinceInit == c.sinceInit + 1 && (posts <==> r == 4)
      && c'.lastPost == if r == 4 then c'.sinceInit else c.lastPost
  {
  }

  /** Seconds are counted in 16 bits: a call with 65536 of them leaves either timer as it was. */
  lemma LongCallCountsAsNone(c: Client, s: Server)
    requires c.active && c.sinceInit <= 3600 && s.active && s.sinceInit <= 300
    ensures var (c', _) := TickClient(c, 65536); c'.active && c'.sinceInit == c.sinceInit && c'.key == c.key
    ensures ServerProcess(s, 65536) == s
  {
  }

  function ServerTickedFor(s: Server, dts: seq<U32>): (r: Server) {
    if dts == [] then s else ServerProcess(ServerTickedFor(s, dts[..|dts| - 1]), dts[|dts| - 1])
  }

  /** A handshake under way at an accessory, left alone, is dropped after 300 s and not before. */
  lemma {:induction false} ServerGivesUp(s: Server, dts: seq<U32>)
    requires s.active && s.sinceInit <= 300 && forall k :: 0 <= k < |dts| ==> dts[k] <= 0xFFFF - 300
    ensures var since := s.sinceInit + Total(dts);
      ServerTickedFor(s, dts) == if since <= 300 then s.(sinceInit := since) else IDLE_SERVER
  {
    if dts != [] { ServerGivesUp(s, dts[..|dts| - 1]); }
  }
}
