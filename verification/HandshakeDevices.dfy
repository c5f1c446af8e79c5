/** The two ends of the handshake as the devices run it, updating their state in place. */
module HandshakeDevices {
  import opened Prelude
  import opened Links
  import LM = LinkManager
  import opened Window
  import opened Handshake

  class HandshakeServer {
    const originKey: Key
    const window: IdWindow
    const linkManager: LM.LinkManager
    var server: Server
    var nvBlock: Option<Window>

    ghost predicate Allocated()
      reads this, window, linkManager
    {
      && window.flags.Length == window.flagsBelow + 1 && linkManager.Allocated()
      && window.flags != linkManager.linkIdxInUse && window.flags != linkManager.linkIdxShouldPersistNonce
    }

    ghost function State(): (r: AccessoryDevice)
      reads this, window, window.flags, linkManager, linkManager.links, linkManager.linkIdxInUse,
            linkManager.linkIdxShouldPersistNonce, linkManager.nvBlocks
    {
      AccessoryDevice(server, window.Value(), nvBlock, linkManager.State())
    }

    /** Power-up: the window and the links come from nonvolatile memory, the handshake starts idle. */
    constructor (originKey: Key, nv: Option<Window>, links: seq<Option<Link>>)
      requires 1 <= |links| <= 10
      requires nv.Some? ==> Formed(nv.value) && nv.value.below == WINDOW_BEFORE_CENTER && nv.value.above == WINDOW_AFTER_CENTER
      ensures Allocated() && this.originKey == originKey
      ensures State() == AccessoryDevice(IDLE_SERVER, if nv.Some? then nv.value else InitialWindow(), nv, Links.Init(links))
    {
      this.originKey := originKey;
      window := new IdWindow(WINDOW_BEFORE_CENTER, WINDOW_BEFORE_CENTER, WINDOW_AFTER_CENTER);
      linkManager := new LM.LinkManager(links);
      server := IDLE_SERVER;
      nvBlock := nv;
      new;
      if nv.Some? {
        window.Load(nv.value);
      }
    }

    method ResetServerState()
      modifies `server
      ensures server == IDLE_SERVER
    {
      server := IDLE_SERVER;
    }

    /** server_post_parse_payload(): stops at the first property it does not take. */
    method ParsePayload(reps: seq<Rep>) returns (ok: bool)
      modifies `server
      ensures ok == ValidPayload(reps)
      ensures ok ==> server == TakeReps(old(server), reps)
    {
      hide ValidRep, TakeRep;
      var propertiesMissing: U8 := 3;
      for i := 0 to |reps|
        invariant forall k :: 0 <= k < i ==> ValidRep(reps[k])
        invariant server == TakeReps(old(server), reps[..i])
        invariant propertiesMissing == (3 - i) % 0x100
      {
        var valid := ParseRep(reps[i]);
        if !valid {
          return false;
        }
        propertiesMissing := (propertiesMissing + 0xFF) % 0x100;
        assert reps[..i + 1][..i] == reps[..i];
      }
      assert reps[..|reps|] == reps;
      ok := propertiesMissing == 0;
    }

    method ParseRep(rep: Rep) returns (valid: bool)
      modifies `server
      ensures valid == ValidRep(rep)
      ensures valid ==> server == TakeRep(old(server), rep)
    {
      match rep
      case BytesRep(name, value) =>
        valid := Named(name, "cD") && |value| % 0x100 == 16;
        if valid {
          server := server.(chalData := value[..16]);
        }
      case IntRep(name, number) =>
        var received := number % 0x100;
        if Named(name, "cM") {
          valid := received == 0;
          if valid {
            server := server.(chalMode := received);
          }
        } else if Named(name, "lS") {
          valid := received == 0;
          if valid {
            server := server.(secMode := received);
          }
        } else {
          valid := false;
        }
      case OtherRep(_) => valid := false;
    }

    /**
     * server_validate_challenge(): derives a key for every unused index, from the bottom up. Endless stands
     * for the loop that goes on when its counter is back where it started.
     */
    method ValidateChallenge(mac: Mac, salt: Salt, received: Tag) returns (search: Search, key: Key)
      requires Formed(window.Value())
      ensures search == Searched(window.Value(), IndexCheck(mac, originKey, salt, received))
      ensures search.Found? ==> key == LinkKey(mac, ChallengeInt(mac, originKey, search.id), salt)
    {
      ghost var w := window.Value();
      ghost var check := IndexCheck(mac, originKey, salt, received);
      var startIndex := Sub32(window.centerIndex, window.flagsBelow);
      var endIndex := Add32(window.centerIndex, window.flagsAbove);
      var i: U32 := startIndex;
      ghost var n: nat := 0;
      key := ZERO_KEY;
      CounterNext(w, 0);
      hide AlreadySet, LinkKey, ChallengeInt, SearchFrom, CounterAt, Sub32, Add32, Successor;
      while i <= endIndex
        invariant n < 0x1_0000_0000 && i == CounterAt(w, n)
        invariant Searched(w, check) == SearchFrom(w, check, n)
        decreases 0x1_0000_0000 - n
      {
        SearchStep(w, check, n);
        var already := window.IdFlagAlreadySet(i);
        if !already {
          key := LinkKey(mac, ChallengeInt(mac, originKey, i), salt);
          if mac(key, salt) == received {
            return Found(i), key;
          }
        }
        CounterNext(w, n);
        i := Successor(i);
        n := n + 1;
        if i == startIndex {
          SearchStep(w, check, n);
          return Endless, key;
        }
      }
      SearchStep(w, check, n);
      search := NotFound;
    }

    /** server_post_finalize_success_state() */
    method FinalizeSuccessState(mac: Mac, matchedIndex: U32, key: Key)
      requires Allocated()
      modifies `server, `nvBlock, window`centerIndex, window.flags
      ensures window.Value() == SetId(old(window.Value()), matchedIndex).0
      ensures nvBlock == Some(window.Value())
      ensures server == old(server).(respData := mac(key, Inverted(old(server).chalData[..8])), active := false)
    {
      var _ := window.SetIdFlag(matchedIndex);
      nvBlock := Some(Window(window.centerIndex, window.flags[..], window.flagsBelow, window.flagsAbove));
      server := server.(respData := mac(key, Inverted(server.chalData[..8])));
      server := server.(active := false);
    }

    /** nexus_channel_res_link_hs_server_post() */
    method Post(mac: Mac, from: NxId, reps: seq<Rep>) returns (reply: Reply, ghost accepted: Option<Accepted>)
      requires Allocated()
      modifies this, window`centerIndex, window.flags, linkManager, linkManager.links, linkManager.linkIdxInUse,
               linkManager.nvBlocks
      ensures (State(), reply, accepted) == ServerPost(mac, originKey, old(State()), from, reps)
    {
      accepted := None;
      server := server.(active := true);
      var parsed := ParsePayload(reps);
      if !parsed {
        ResetServerState();
        return BadRequest, None;
      }
      reply, accepted := AnswerChallenge(mac, from);
    }

    method AnswerChallenge(mac: Mac, from: NxId) returns (reply: Reply, ghost accepted: Option<Accepted>)
      requires Allocated()
      modifies this, window`centerIndex, window.flags, linkManager, linkManager.links, linkManager.linkIdxInUse,
               linkManager.nvBlocks
      ensures (State(), reply, accepted) == Challenged(mac, originKey, old(State()), from)
    {
      hide LinkKey, ChallengeInt, SetId, CreateLink, Searched;
      var salt := server.chalData[..8];
      var search, key := ValidateChallenge(mac, salt, server.chalData[8..]);
      if search.Endless? {
        return NoReply, None;
      }
      if search.NotFound? {
        ResetServerState();
        return BadRequest, None;
      }
      var created := linkManager.CreateLink(from, Accessory, server.secMode, key, 0);
      if !created {
        ResetServerState();
        return BadRequest, None;
      }
      FinalizeSuccessState(mac, search.id, key);
      reply, accepted := Created(server.respData), Some(Accepted(key, salt, search.id));
    }

    /** The accessory's part of process(). */
    method Process(secondsElapsed: U32)
      modifies `server
      ensures server == ServerProcess(old(server), secondsElapsed)
    {
      if server.active {
        server := server.(sinceInit := (server.sinceInit + secondsElapsed) % 0x1_0000);
        if server.sinceInit > ACCESSORY_TIMEOUT_SECONDS {
          ResetServerState();
        }
      }
    }
  }

  class HandshakeClient {
    const clients: array<Client>
    const linkManager: LM.LinkManager

    ghost predicate Allocated()
      reads this, linkManager
    {
      clients.Length == CLIENTS && linkManager.Allocated()
    }

    ghost function State(): (r: ControllerDevice)
      reads this, clients, linkManager, linkManager.links, linkManager.linkIdxInUse,
            linkManager.linkIdxShouldPersistNonce, linkManager.nvBlocks
    {
      ControllerDevice(clients[..], linkManager.State())
    }

    constructor (links: seq<Option<Link>>)
      requires 1 <= |links| <= 10
      ensures Allocated() && State() == ControllerDevice(seq(CLIENTS, _ => ZERO_CLIENT), Links.Init(links))
    {
      clients := new Client[CLIENTS](_ => ZERO_CLIENT);
      linkManager := new LM.LinkManager(links);
      new;
      assert clients[..] == seq(CLIENTS, _ => ZERO_CLIENT);
    }

    /** nexus_channel_res_link_hs_link_mode_3() */
    method LinkMode3(mac: Mac, challenge: U32, salt: Salt) returns (started: bool)
      requires Allocated()
      modifies clients
      ensures (clients[..], started) == StartHandshake(mac, old(clients[..]), challenge, salt)
    {
      hide LinkKey;
      var i := 0;
      while i < clients.Length && clients[i].active
        invariant 0 <= i <= clients.Length && FirstIdleFrom(clients[..], 0) == FirstIdleFrom(clients[..], i)
      {
        i := i + 1;
      }
      if i == clients.Length {
        return false;
      }
      var key := LinkKey(mac, challenge, salt);
      var saltMac := mac(key, salt);
      clients[i] := Client(true, key, salt, salt + saltMac, 0, 0, 0);
      started := true;
    }

    /** One property of a response; false ends the handler. */
    method HandleRep(mac: Mac, i: nat, from: NxId, rep: Rep) returns (on: bool)
      requires Allocated() && i < clients.Length
      modifies clients, linkManager, linkManager.links, linkManager.linkIdxInUse, linkManager.nvBlocks
      ensures (State(), on) == TakeResponse(mac, old(State()), i, from, rep)
    {
      hide CreateLink;
      if !Named(rep.name, "rD") {
        return true;
      }
      if !rep.BytesRep? || |rep.value| % 0x100 != 8 {
        return false;
      }
      var client := clients[i];
      if mac(client.key, Inverted(client.salt)) != rep.value[..8] {
        return false;
      }
      var success := linkManager.CreateLink(from, OperatingMode.Controller, client.secMode, client.key, 0);
      if !success {
        return false;
      }
      clients[i] := ZERO_CLIENT;
      on := true;
    }

    /** nexus_channel_res_link_hs_client_post() */
    method Post(mac: Mac, i: nat, from: NxId, created: bool, reps: seq<Rep>)
      requires Allocated() && i < clients.Length
      modifies clients, linkManager, linkManager.links, linkManager.linkIdxInUse, linkManager.nvBlocks
      ensures Allocated() && State() == ClientPost(mac, old(State()), i, from, created, reps)
    {
      if !created {
        return;
      }
      hide TakeResponse;
      var k := 0;
      var on := true;
      while k < |reps| && on
        invariant 0 <= k <= |reps|
        invariant (State(), on) == TakeResponses(mac, old(State()), i, from, reps[..k])
        decreases |reps| - k
      {
        on := HandleRep(mac, i, from, reps[k]);
        assert reps[..k + 1][..k] == reps[..k];
        k := k + 1;
      }
      StoppedStays(mac, old(State()), i, from, reps, k);
    }

    /** The controller's part of process(): the slots that post their challenge again. */
    method Process(secondsElapsed: U32) returns (posted: seq<bool>)
      requires Allocated()
      modifies clients
      ensures |posted| == clients.Length
      ensures forall i :: 0 <= i < clients.Length ==> (clients[i], posted[i]) == TickClient(old(clients[i]), secondsElapsed)
    {
      posted := [];
      for i := 0 to clients.Length
        invariant |posted| == i
        invariant forall k :: 0 <= k < i ==> (clients[k], posted[k]) == TickClient(old(clients[k]), secondsElapsed)
        invariant forall k :: i <= k < clients.Length ==> clients[k] == old(clients[k])
      {
        var post := ProcessClient(i, secondsElapsed);
        posted := posted + [post];
      }
    }

    method ProcessClient(i: nat, secondsElapsed: U32) returns (post: bool)
      requires i < clients.Length
      modifies clients
      ensures clients[..] == old(clients[..])[i := TickClient(old(clients[i]), secondsElapsed).0]
      ensures post == TickClient(old(clients[i]), secondsElapsed).1
    {
      if !clients[i].active {
        return false;
      }
      post := false;
      clients[i] := clients[i].(sinceInit := (clients[i].sinceInit + secondsElapsed) % 0x1_0000);
      if clients[i].sinceInit > CONTROLLER_TIMEOUT_SECONDS {
        clients[i] := ZERO_CLIENT;
      } else {
        var secondsSincePost := (clients[i].sinceInit - clients[i].lastPost) % 0x1_0000;
        if secondsSincePost >= RETRY_SECONDS {
          clients[i] := clients[i].(lastPost := clients[i].sinceInit);
          post := true;
        }
      }
    }
  }

  /** Once the handler stops at a property, the rest of the response changes nothing. */
  lemma {:induction false} StoppedStays(mac: Mac, c: ControllerDevice, i: nat, from: NxId, reps: seq<Rep>, k: nat)
    requires i < |c.clients| && Sized(c.table) && k <= |reps|
    requires k == |reps| || !TakeResponses(mac, c, i, from, reps[..k]).1
    ensures TakeResponses(mac, c, i, from, reps).0 == TakeResponses(mac, c, i, from, reps[..k]).0
    decreases |reps|
  {
    if k == |reps| {
      assert reps[..k] == reps;
    } else {
      var last := |reps| - 1;
      assert reps[..last][..k] == reps[..k];
      if k == last {
        assert reps[..last] == reps[..k];
      }
      StoppedStays(mac, c, i, from, reps[..last], k);
      StopIsFinal(mac, c, i, from, reps[..last], k);
    }
  }

  lemma {:induction false} StopIsFinal(mac: Mac, c: ControllerDevice, i: nat, from: NxId, reps: seq<Rep>, k: nat)
    requires i < |c.clients| && Sized(c.table) && k <= |reps| && !TakeResponses(mac, c, i, from, reps[..k]).1
    ensures !TakeResponses(mac, c, i, from, reps).1
    decreases |reps|
  {
    if k == |reps| {
      assert reps[..k] == reps;
    } else {
      assert reps[..|reps| - 1][..k] == reps[..k];
      StopIsFinal(mac, c, i, from, reps[..|reps| - 1], k);
    }
  }
}
