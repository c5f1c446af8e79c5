/**
 * Replay protection over whole runs: messages, process calls, new links and restarts in any order.
 * The log of a peer records every accepted request nonce and every explicit return of the nonce to 0.
 */
module NonceProtocol {
  import opened Prelude
  import opened Cbor
  import opened Links
  import LinkIteration
  import opened CoseMac0
  import opened SecurityManager

  datatype Event =
    | Receive(from: NxId, pkt: Packet, secured: bool, stale: Tag)
    | Elapse(seconds: U32)
    | Restart
    | Create(id: NxId, mode: OperatingMode, securityMode: U8, key: Key, nonce: U32)
    | ClearAll

  function Next(mac: Mac, t: Table, e: Event): (r: Table)
    requires Sized(t)
  {
    match e
    case Receive(from, pkt, secured, stale) => Authenticate(mac, t, from, pkt, secured, stale).table
    case Elapse(dt) => Links.Process(t, dt)
    case Restart => Init(t.nv)
    case Create(id, mode, sec, key, nonce) => Links.CreateLink(t, id, mode, sec, key, nonce).0
    case ClearAll => Links.ClearAllLinks(t)
  }

  datatype Mark = Accepted(nonce: U32) | Reset

  predicate Linked(t: Table, peer: NxId)
    requires Sized(t)
  {
    Find(t, peer).Some?
  }

  /** The nonce of a packet whose MAC is right under the link with its sender. */
  function ReceivedNonce(mac: Mac, t: Table, from: NxId, pkt: Packet, stale: Tag): (r: Option<U32>)
    requires Sized(t)
  {
    if !pkt.cose || |pkt.payload| > MAX_MESSAGE || pkt.payload == [] || Find(t, from).None? then None
    else
      match Checked(mac, t.links[Find(t, from).value].key, pkt, stale)
      case Ok(v) => Some(v.nonce)
      case Err(_) => None
  }

  /** What one event adds to the peer's log; a link that comes or goes starts a new count. */
  function Marks(mac: Mac, t: Table, e: Event, peer: NxId): (r: seq<Mark>)
    requires Sized(t) && Sized(Next(mac, t, e))
  {
    if Linked(t, peer) != Linked(Next(mac, t, e), peer) then [Reset]
    else if !e.Receive? || e.from != peer then []
    else
      var r := ReceivedNonce(mac, t, peer, e.pkt, e.stale);
      if r.None? then []
      else
        var verdict := NonceVerdict(e.pkt.code, t.links[Find(t, peer).value].nonce, r.value);
        MarksOf(e.pkt.code, verdict, r.value)
  }

  function MarksOf(code: U8, verdict: AuthResult, received: U32): (r: seq<Mark>) {
    if verdict == NoError && IsRequest(code) then [Accepted(received)]
    else if verdict == ForcedReset || (verdict == ValidNonceSync && received == RESET_NONCE_SIGNAL) then [Reset]
    else []
  }

  /** The last nonce accepted since the nonce last returned to 0. */
  function Last(log: seq<Mark>): (r: Option<U32>) {
    if log == [] || log[|log| - 1].Reset? then None else Some(log[|log| - 1].nonce)
  }

  ghost predicate Increasing(log: seq<Mark>) {
    forall k :: 0 <= k < |log| - 1 && log[k].Accepted? && log[k + 1].Accepted? ==> log[k].nonce < log[k + 1].nonce
  }

  // ---------------------------------------------------------------- one slot

  datatype Slot = Slot(link: Link, used: bool, persist: bool, block: Option<Link>)

  function View(t: Table, i: nat): (r: Slot)
    requires Sized(t) && i < |t.links|
  {
    Slot(t.links[i], t.inUse[i], t.persist[i], t.nv[i])
  }

  /** Unless a write is flagged, the stored nonce is in the same interval as the one in RAM. */
  predicate Recoverable(s: Slot) {
    s.persist || (s.block.Some? && s.block.value.nonce / NONCE_INTERVAL == s.link.nonce / NONCE_INTERVAL)
  }

  ghost predicate SlotSafe(s: Slot, last: Option<U32>) {
    && s.link.securityMode == COSE_MAC0_SIPHASH
    && s.link.nonce < UINT32_MAX
    && (last.Some? ==> last.value <= s.link.nonce)
  }

  ghost predicate Safe(t: Table, peer: NxId, log: seq<Mark>) {
    && Inv(t) && Increasing(log)
    && (forall i :: 0 <= i < |t.links| && t.inUse[i] && t.links[i].id == peer ==> SlotSafe(View(t, i), Last(log)))
    && (t.pendingAdd && t.pending.id == peer ==> t.pending.securityMode == COSE_MAC0_SIPHASH && t.pending.nonce < UINT32_MAX)
  }

  /**
   * What a run must avoid: links of another security mode; a plain response at the top nonce; a restart
   * with a stored nonce more than an interval behind the one in RAM, or within an interval of the top.
   */
  ghost predicate Careful(mac: Mac, t: Table, e: Event, peer: NxId)
    requires Sized(t)
  {
    match e
    case Receive(from, pkt, secured, stale) =>
      var r := ReceivedNonce(mac, t, from, pkt, stale);
      from == peer && r.Some? ==>
        var verdict := NonceVerdict(pkt.code, t.links[Find(t, peer).value].nonce, r.value);
        verdict != InvalidNonce ==> NonceAfter(verdict, r.value) < UINT32_MAX
    case Restart => Linked(t, peer) ==> StoredCloseBehind(View(t, Find(t, peer).value))
    case Create(id, mode, sec, key, nonce) => id == peer ==> sec == COSE_MAC0_SIPHASH && nonce < UINT32_MAX
    case _ => true
  }

  predicate StoredCloseBehind(s: Slot) {
    s.block.Some? ==> s.link.nonce <= s.block.value.nonce + NONCE_INTERVAL < UINT32_MAX
  }

  /** A message that moves the nonce from 0 moves it by less than an interval, unless a write is flagged. */
  ghost predicate Modest(mac: Mac, t: Table, e: Event, peer: NxId)
    requires Sized(t)
  {
    e.Receive? && e.from == peer ==>
      var r := ReceivedNonce(mac, t, peer, e.pkt, e.stale);
      r.Some? ==>
        var s := View(t, Find(t, peer).value);
        var verdict := NonceVerdict(e.pkt.code, s.link.nonce, r.value);
        verdict == InvalidNonce || s.persist || s.link.nonce != 0 || NonceAfter(verdict, r.value) < NONCE_INTERVAL
  }

  // ---------------------------------------------------------------- each event, slot by slot

  lemma FindInUse(t: Table, i: nat)
    requires Inv(t) && i < |t.links| && t.inUse[i]
    ensures Find(t, t.links[i].id) == Some(i)
  {
  }

  lemma SetNonceSlot(t: Table, id: NxId, nonce: U32, i: nat)
    requires Sized(t) && i < |t.links|
    ensures var s, t' := View(t, i), SetNonce(t, id, nonce).0;
      && Sized(t') && t'.inUse == t.inUse && t'.links[i].id == t.links[i].id
      && View(t', i) == if Find(t, id) == Some(i) && s.link.securityMode == COSE_MAC0_SIPHASH
        then s.(link := s.link.(nonce := nonce), persist := s.persist || FlagsPersist(s.link.nonce, nonce)) else s
  {
    hide FlagsPersist;
  }

  lemma ResetSlot(t: Table, id: NxId, i: nat)
    requires Sized(t) && i < |t.links|
    ensures var s, t' := View(t, i), ResetSecsSinceActive(t, id);
      && Sized(t') && t'.inUse == t.inUse
      && View(t', i) == if Find(t, id) == Some(i) then s.(link := s.link.(sinceActive := 0)) else s
  {
  }

  lemma {:induction false} FindSame(t: Table, t': Table, id: NxId, i: nat)
    requires |t.links| == |t'.links| == |t.inUse| && t.inUse == t'.inUse && i <= |t.links|
    requires forall k :: 0 <= k < |t.links| ==> t'.links[k].id == t.links[k].id
    ensures FindFrom(t', id, i) == FindFrom(t, id, i)
    decreases |t.links| - i
  {
    if i < |t.links| { FindSame(t, t', id, i + 1); }
  }

  lemma UsedSlot(t: Table, id: NxId, nonce: U32, i: nat)
    requires Inv(t) && i < |t.links| && t.inUse[i]
    ensures var s, s' := View(t, i), View(Used(t, id, nonce), i);
      if s.link.id == id && s.link.securityMode == COSE_MAC0_SIPHASH
      then s' == StoredNonce(s, nonce)
      else s'.link.id == s.link.id && (s.link.id != id ==> s' == s)
    ensures Used(t, id, nonce).inUse == t.inUse
  {
    FindInUse(t, i);
    hide Inv, SetNonce, ResetSecsSinceActive, FlagsPersist, FindFrom;
    var t1 := SetNonce(t, id, nonce).0;
    SetNonceSlot(t, id, nonce, i);
    forall k | 0 <= k < |t.links| ensures t1.links[k].id == t.links[k].id { SetNonceSlot(t, id, nonce, k); }
    FindSame(t, t1, id, 0);
    ResetSlot(t1, id, i);
  }

  function TickedSlot(s: Slot, dt: U32): (r: Slot) {
    var l := Aged(s.link, dt);
    if !s.used then s
    else if l.sinceActive > LINK_TIMEOUT_SECONDS then Slot(ZERO_LINK, false, s.persist, Some(ZERO_LINK))
    else if l.securityMode == COSE_MAC0_SIPHASH && s.persist then Slot(l, true, false, Some(l))
    else s.(link := l)
  }

  lemma TickSlotView(t: Table, n: nat, dt: U32, i: nat)
    requires Sized(t) && n < |t.links| && i < |t.links|
    ensures View(TickSlot(t, n, dt), i) == if i == n then TickedSlot(View(t, i), dt) else View(t, i)
  {
  }

  lemma {:induction false} TickView(t: Table, n: nat, dt: U32, i: nat)
    requires Sized(t) && n <= |t.links| && i < |t.links|
    ensures View(Tick(t, n, dt), i) == if i < n then TickedSlot(View(t, i), dt) else View(t, i)
  {
    hide TickSlot, TickedSlot, View;
    if n > 0 {
      TickView(t, n - 1, dt, i);
      TickSlotView(Tick(t, n - 1, dt), n - 1, dt, i);
    }
  }

  lemma AddPendingSlot(t: Table, i: nat)
    requires Sized(t) && i < |t.links| && AddPending(t).inUse[i]
    ensures var s, s' := View(t, i), View(AddPending(t), i);
      s' == s || (s'.link == t.pending && s'.block == Some(t.pending))
  {
  }

  lemma ElapseSlot(t: Table, dt: U32, i: nat)
    requires Inv(t) && i < |t.links| && Links.Process(t, dt).inUse[i]
    ensures var s, s' := View(t, i), View(Links.Process(t, dt), i);
      || (s.used && s' == TickedSlot(s, dt) && s'.used)
      || (t.pendingAdd && s'.link == t.pending && s'.block == Some(t.pending) && Find(t, t.pending.id).None?)
  {
    var t1 := Tick(t, |t.links|, dt);
    TickView(t, |t.links|, dt, i);
    TickFlags(t, |t.links|, dt);
    hide Tick, AddPending, ClearSlots;
    if t1.pendingAdd {
      AddPendingSlot(t1, i);
    } else if t1.pendingClear {
      ClearSlotsClears(t1, |t1.links|, i);
    }
  }

  lemma CreateSlot(t: Table, e: Event, i: nat)
    requires Inv(t) && e.Create? && i < |t.links|
    requires var t' := Links.CreateLink(t, e.id, e.mode, e.securityMode, e.key, e.nonce).0; t'.inUse[i]
    ensures t.inUse[i] && View(Links.CreateLink(t, e.id, e.mode, e.securityMode, e.key, e.nonce).0, i) == View(t, i)
  {
  }

  lemma LogGrows(log: seq<Mark>, mark: Mark)
    requires Increasing(log) && (mark.Accepted? && Last(log).Some? ==> Last(log).value < mark.nonce)
    ensures Increasing(log + [mark])
    ensures Last(log + [mark]) == if mark.Reset? then None else Some(mark.nonce)
  {
    var grown := log + [mark];
    forall k | 0 <= k < |grown| - 1 && grown[k].Accepted? && grown[k + 1].Accepted? ensures grown[k].nonce < grown[k + 1].nonce {
      if k + 1 < |log| {
        assert log[k].Accepted? && log[k + 1].Accepted?;
      }
    }
  }

  function StoredNonce(s: Slot, nonce: U32): (r: Slot) {
    s.(link := s.link.(nonce := nonce, sinceActive := 0), persist := s.persist || FlagsPersist(s.link.nonce, nonce))
  }

  /**
   * Moving the nonce on, or back to 0, leaves a slot recoverable unless the nonce jumps by an interval
   * or more out of 0 while no write is flagged: set_nonce() skips the boundary search for nonce 0.
   */
  lemma StaysRecoverableIff(s: Slot, nonce: U32)
    requires Recoverable(s) && (nonce == 0 || nonce >= s.link.nonce)
    ensures Recoverable(StoredNonce(s, nonce)) <==> s.persist || s.link.nonce != 0 || nonce < NONCE_INTERVAL
  {
  }

  /**
   * After a restart with no write flagged a recoverable slot is above the nonce it had, and so above all
   * accepted ones, exactly when the stored nonce is more than an interval below 2^32.
   */
  lemma RestartMovesOnIff(s: Slot, last: Option<U32>)
    requires Recoverable(s) && !s.persist && s.block.value.id.deviceId != 0
    requires last.Some? ==> last.value <= s.link.nonce
    ensures Loaded(s.block).Some?
    ensures s.link.nonce < Loaded(s.block).value.nonce <==> s.block.value.nonce < 0x1_0000_0000 - NONCE_INTERVAL
    ensures s.block.value.nonce < 0x1_0000_0000 - NONCE_INTERVAL && last.Some? ==> last.value < Loaded(s.block).value.nonce
  {
  }

  /** A recoverable slot with no write flagged may be restarted with, unless its stored nonce is near the top. */
  lemma RecoverableIsCloseBehind(s: Slot)
    requires Recoverable(s) && !s.persist && s.block.value.nonce + NONCE_INTERVAL < UINT32_MAX
    ensures StoredCloseBehind(s)
  {
  }

  // ---------------------------------------------------------------- each event keeps the log increasing

  lemma ReceiveFromPeer(s: Slot, code: U8, received: U32, log: seq<Mark>)
    requires SlotSafe(s, Last(log)) && Increasing(log)
    requires NonceVerdict(code, s.link.nonce, received) != InvalidNonce
    requires NonceAfter(NonceVerdict(code, s.link.nonce, received), received) < UINT32_MAX
    ensures var verdict := NonceVerdict(code, s.link.nonce, received);
      var log' := log + MarksOf(code, verdict, received);
      SlotSafe(StoredNonce(s, NonceAfter(verdict, received)), Last(log')) && Increasing(log')
  {
    var verdict := NonceVerdict(code, s.link.nonce, received);
    if MarksOf(code, verdict, received) == [] {
      assert log + [] == log;
    } else {
      LogGrows(log, MarksOf(code, verdict, received)[0]);
    }
  }

  lemma ReceiveOutcome(mac: Mac, t: Table, e: Event)
    requires Sized(t) && e.Receive?
    ensures var r := ReceivedNonce(mac, t, e.from, e.pkt, e.stale);
      if r.None? then Next(mac, t, e) == t
      else
        Find(t, e.from).Some? &&
        var verdict := NonceVerdict(e.pkt.code, t.links[Find(t, e.from).value].nonce, r.value);
        Next(mac, t, e) == if verdict == InvalidNonce then t else Used(t, e.from, NonceAfter(verdict, r.value))
  {
    hide Checked, Used, NonceVerdict, NonceAfter;
  }

  lemma UsedSameLinks(t: Table, id: NxId, nonce: U32, peer: NxId)
    requires Inv(t)
    ensures Sized(Used(t, id, nonce)) && Find(Used(t, id, nonce), peer) == Find(t, peer)
    ensures Used(t, id, nonce).pendingAdd == t.pendingAdd && Used(t, id, nonce).pending == t.pending
  {
    UsedInv(t, id, nonce);
    var at := Find(t, peer);
    if at.Some? {
      UsedSlot(t, id, nonce, at.value);
      FindInUse(Used(t, id, nonce), at.value);
    } else {
      forall i | 0 <= i < |t.links| && t.inUse[i] ensures Used(t, id, nonce).links[i].id != peer {
        UsedSlot(t, id, nonce, i);
      }
    }
  }

  lemma UsedSafe(t: Table, peer: NxId, nonce: U32, log: seq<Mark>, log': seq<Mark>)
    requires Safe(t, peer, log) && Find(t, peer).Some?
    requires Increasing(log') && SlotSafe(StoredNonce(View(t, Find(t, peer).value), nonce), Last(log'))
    requires SlotSafe(View(t, Find(t, peer).value), Last(log))
    ensures Safe(Used(t, peer, nonce), peer, log')
  {
    var i := Find(t, peer).value;
    UsedSameLinks(t, peer, nonce, peer);
    UsedSlot(t, peer, nonce, i);
    UsedInv(t, peer, nonce);
    var t' := Used(t, peer, nonce);
    hide Used, StoredNonce, Increasing, Last;
    forall k | 0 <= k < |t'.links| && t'.inUse[k] && t'.links[k].id == peer ensures k == i {
      FindInUse(t', k);
    }
  }

  lemma OtherSafe(t: Table, id: NxId, peer: NxId, nonce: U32, log: seq<Mark>)
    requires Safe(t, peer, log) && id != peer
    ensures Safe(Used(t, id, nonce), peer, log)
  {
    UsedSameLinks(t, id, nonce, peer);
    UsedInv(t, id, nonce);
    var t' := Used(t, id, nonce);
    hide Used, Increasing, Last, SlotSafe;
    forall k | 0 <= k < |t'.links| && t'.inUse[k] && t'.links[k].id == peer
      ensures SlotSafe(View(t', k), Last(log))
    {
      UsedSlot(t, id, nonce, k);
    }
  }

  lemma ReceiveSafe(mac: Mac, t: Table, e: Event, peer: NxId, log: seq<Mark>)
    requires Safe(t, peer, log) && e.Receive? && Careful(mac, t, e, peer)
    ensures Inv(Next(mac, t, e)) && Safe(Next(mac, t, e), peer, log + Marks(mac, t, e, peer))
  {
    AuthenticateInv(mac, t, e.from, e.pkt, e.secured, e.stale);
    ReceiveOutcome(mac, t, e);
    assert log + [] == log;
    var r := ReceivedNonce(mac, t, e.from, e.pkt, e.stale);
    hide ReceivedNonce, Next, Inv, Used, SlotSafe, NonceVerdict, NonceAfter, Increasing, Last, StoredNonce, MarksOf;
    if r.Some? {
      var i := Find(t, e.from).value;
      var verdict := NonceVerdict(e.pkt.code, t.links[i].nonce, r.value);
      if verdict != InvalidNonce {
        UsedSameLinks(t, e.from, NonceAfter(verdict, r.value), peer);
        if e.from == peer {
          ReceiveFromPeer(View(t, i), e.pkt.code, r.value, log);
          UsedSafe(t, peer, NonceAfter(verdict, r.value), log, log + MarksOf(e.pkt.code, verdict, r.value));
        } else {
          OtherSafe(t, e.from, peer, NonceAfter(verdict, r.value), log);
        }
      }
    }
  }

  lemma ElapseSafe(t: Table, dt: U32, peer: NxId, log: seq<Mark>)
    requires Safe(t, peer, log)
    ensures var t' := Links.Process(t, dt);
      Inv(t') && Safe(t', peer, if Linked(t, peer) != Linked(t', peer) then log + [Reset] else log)
  {
    ProcessInv(t, dt);
    LogGrows(log, Reset);
    var t' := Links.Process(t, dt);
    hide Links.Process, Increasing, Last, TickedSlot;
    forall i | 0 <= i < |t'.links| && t'.inUse[i] && t'.links[i].id == peer
      ensures SlotSafe(View(t', i), if Linked(t, peer) != Linked(t', peer) then None else Last(log))
    {
      ElapseSlot(t, dt, i);
      FindInUse(t', i);
    }
  }

  lemma RestartSafe(mac: Mac, t: Table, peer: NxId, log: seq<Mark>)
    requires Safe(t, peer, log) && Careful(mac, t, Restart, peer)
    ensures var t' := Init(t.nv);
      Inv(t') && Safe(t', peer, if Linked(t, peer) != Linked(t', peer) then log + [Reset] else log)
  {
    hide Increasing, Last, Mirrored, CountTrue, FindFrom;
    RebootRestores(t);
    LogGrows(log, Reset);
    var t' := Init(t.nv);
    forall i | 0 <= i < |t'.links| && t'.inUse[i] && t'.links[i].id == peer
      ensures SlotSafe(View(t', i), if Linked(t, peer) != Linked(t', peer) then None else Last(log))
    {
      FindInUse(t', i);
      FindInUse(t, i);
      assert StoredCloseBehind(View(t, i));
    }
  }

  lemma CreateSafe(mac: Mac, t: Table, e: Event, peer: NxId, log: seq<Mark>)
    requires Safe(t, peer, log) && e.Create? && Careful(mac, t, e, peer)
    ensures var t' := Links.CreateLink(t, e.id, e.mode, e.securityMode, e.key, e.nonce).0;
      Inv(t') && Safe(t', peer, if Linked(t, peer) != Linked(t', peer) then log + [Reset] else log)
  {
    CreateLinkInv(t, e.id, e.mode, e.securityMode, e.key, e.nonce);
    LogGrows(log, Reset);
    var t' := Links.CreateLink(t, e.id, e.mode, e.securityMode, e.key, e.nonce).0;
    assert t'.pendingAdd && t'.pending.id == peer ==>
        t'.pending.securityMode == COSE_MAC0_SIPHASH && t'.pending.nonce < UINT32_MAX;
    hide Links.CreateLink, Increasing, Last;
    forall i | 0 <= i < |t'.links| && t'.inUse[i] && t'.links[i].id == peer
      ensures SlotSafe(View(t', i), if Linked(t, peer) != Linked(t', peer) then None else Last(log))
    {
      CreateSlot(t, e, i);
    }
  }

  lemma StepSafe(mac: Mac, t: Table, e: Event, peer: NxId, log: seq<Mark>)
    requires Safe(t, peer, log) && Careful(mac, t, e, peer)
    ensures Inv(Next(mac, t, e)) && Safe(Next(mac, t, e), peer, log + Marks(mac, t, e, peer))
  {
    assert log + [] == log;
    hide Inv, Links.Process, Links.CreateLink, Init, Find, SlotSafe, Increasing, Last, Authenticate, ReceivedNonce;
    match e
    case Receive(_, _, _, _) => ReceiveSafe(mac, t, e, peer, log);
    case Elapse(dt) => ElapseSafe(t, dt, peer, log);
    case Restart => RestartSafe(mac, t, peer, log);
    case Create(_, _, _, _, _) => CreateSafe(mac, t, e, peer, log);
    case ClearAll => ClearAllSafe(t, peer, log);
  }

  lemma ClearAllSafe(t: Table, peer: NxId, log: seq<Mark>)
    requires Safe(t, peer, log)
    ensures Inv(Links.ClearAllLinks(t)) && Safe(Links.ClearAllLinks(t), peer, log)
    ensures Linked(Links.ClearAllLinks(t), peer) == Linked(t, peer)
  {
    var t' := Links.ClearAllLinks(t);
    assert forall i :: 0 <= i < |t.links| ==> View(t', i) == View(t, i);
    hide SlotSafe, Increasing, Last;
    assert forall id :: Find(t', id) == Find(t, id) by {
      forall id ensures Find(t', id) == Find(t, id) {}
    }
  }

  // ---------------------------------------------------------------- each event keeps slots recoverable

  ghost predicate PeerRecoverable(t: Table, peer: NxId)
    requires Sized(t)
  {
    forall i :: 0 <= i < |t.links| && t.inUse[i] && t.links[i].id == peer ==> Recoverable(View(t, i))
  }

  lemma UsedRecoverable(t: Table, from: NxId, peer: NxId, nonce: U32)
    requires Inv(t) && PeerRecoverable(t, peer)
    requires from == peer ==> Find(t, peer).Some? && Recoverable(StoredNonce(View(t, Find(t, peer).value), nonce))
    requires forall i :: 0 <= i < |t.links| && t.inUse[i] && t.links[i].id == peer ==>
      t.links[i].securityMode == COSE_MAC0_SIPHASH
    ensures Sized(Used(t, from, nonce)) && PeerRecoverable(Used(t, from, nonce), peer)
  {
    var t' := Used(t, from, nonce);
    UsedSameLinks(t, from, nonce, peer);
    hide Used, Recoverable, StoredNonce;
    forall i | 0 <= i < |t'.links| && t'.inUse[i] && t'.links[i].id == peer ensures Recoverable(View(t', i)) {
      UsedSlot(t, from, nonce, i);
      FindInUse(t, i);
    }
  }

  lemma PeerStaysRecoverable(s: Slot, code: U8, received: U32, last: Option<U32>)
    requires SlotSafe(s, last) && Recoverable(s)
    ensures var verdict := NonceVerdict(code, s.link.nonce, received);
      var nonce := NonceAfter(verdict, received);
      verdict != InvalidNonce && (s.persist || s.link.nonce != 0 || nonce < NONCE_INTERVAL) ==> Recoverable(StoredNonce(s, nonce))
  {
    var verdict := NonceVerdict(code, s.link.nonce, received);
    if verdict != InvalidNonce { StaysRecoverableIff(s, NonceAfter(verdict, received)); }
  }

  lemma ReceiveRecoverable(mac: Mac, t: Table, e: Event, peer: NxId, log: seq<Mark>)
    requires Safe(t, peer, log) && PeerRecoverable(t, peer) && e.Receive? && Modest(mac, t, e, peer)
    ensures Sized(Next(mac, t, e)) && PeerRecoverable(Next(mac, t, e), peer)
  {
    ReceiveOutcome(mac, t, e);
    var r := ReceivedNonce(mac, t, e.from, e.pkt, e.stale);
    hide ReceivedNonce, Next, Used, Recoverable, Increasing, StoredNonce, Last, NonceVerdict, NonceAfter;
    if r.Some? {
      var s := View(t, Find(t, e.from).value);
      var verdict := NonceVerdict(e.pkt.code, s.link.nonce, r.value);
      if verdict != InvalidNonce {
        if e.from == peer { PeerStaysRecoverable(s, e.pkt.code, r.value, Last(log)); }
        UsedRecoverable(t, e.from, peer, NonceAfter(verdict, r.value));
      }
    }
  }

  lemma ElapseRecoverable(t: Table, dt: U32, peer: NxId, log: seq<Mark>)
    requires Safe(t, peer, log) && PeerRecoverable(t, peer)
    ensures Sized(Links.Process(t, dt)) && PeerRecoverable(Links.Process(t, dt), peer)
  {
    var t' := Links.Process(t, dt);
    ProcessInv(t, dt);
    hide Links.Process, Increasing;
    forall i | 0 <= i < |t'.links| && t'.inUse[i] && t'.links[i].id == peer ensures Recoverable(View(t', i)) {
      ElapseSlot(t, dt, i);
    }
  }

  /** Apart from a jump out of nonce 0, every event leaves a peer's slot flagged or stored in its interval. */
  lemma StepRecoverable(mac: Mac, t: Table, e: Event, peer: NxId, log: seq<Mark>)
    requires Safe(t, peer, log) && PeerRecoverable(t, peer) && Modest(mac, t, e, peer)
    ensures Sized(Next(mac, t, e)) && PeerRecoverable(Next(mac, t, e), peer)
  {
    match e
    case Receive(_, _, _, _) => ReceiveRecoverable(mac, t, e, peer, log);
    case Elapse(dt) => ElapseRecoverable(t, dt, peer, log);
    case Restart =>
    case Create(id, mode, sec, key, nonce) =>
      var t' := Next(mac, t, e);
      CreateLinkInv(t, id, mode, sec, key, nonce);
      hide Next, Recoverable, Increasing, Find;
      forall i | 0 <= i < |t'.links| && t'.inUse[i] && t'.links[i].id == peer ensures Recoverable(View(t', i)) {
        CreateSlot(t, e, i);
      }
    case ClearAll =>
      assert forall i :: 0 <= i < |t.links| ==> View(Links.ClearAllLinks(t), i) == View(t, i);
  }

  // ---------------------------------------------------------------- runs

  lemma ClearAllInv(t: Table)
    requires Inv(t)
    ensures Inv(Links.ClearAllLinks(t))
  {
  }

  /** Every event keeps the table invariant, so it holds in every reachable state. */
  lemma NextInv(mac: Mac, t: Table, e: Event)
    requires Inv(t)
    ensures Inv(Next(mac, t, e))
  {
    hide Inv, Links.Process, Links.CreateLink, Init, Authenticate;
    match e
    case Receive(from, pkt, secured, stale) => AuthenticateInv(mac, t, from, pkt, secured, stale);
    case Elapse(dt) => ProcessInv(t, dt);
    case Restart => RebootRestores(t);
    case Create(id, mode, sec, key, nonce) => CreateLinkInv(t, id, mode, sec, key, nonce);
    case ClearAll => ClearAllInv(t);
  }

  /** The table and the peer's log after a run. */
  ghost function Run(mac: Mac, t: Table, es: seq<Event>, peer: NxId): (r: (Table, seq<Mark>))
    requires Inv(t)
    ensures Inv(r.0)
  {
    if es == [] then (t, [])
    else
      var (t1, log) := Run(mac, t, es[..|es| - 1], peer);
      var e := es[|es| - 1];
      NextInv(mac, t1, e);
      (Next(mac, t1, e), log + Marks(mac, t1, e, peer))
  }

  ghost predicate CarefulRun(mac: Mac, t: Table, es: seq<Event>, peer: NxId)
    requires Inv(t)
  {
    es == [] ||
    (CarefulRun(mac, t, es[..|es| - 1], peer)
     && Careful(mac, Run(mac, t, es[..|es| - 1], peer).0, es[|es| - 1], peer))
  }

  lemma {:induction false} RunSafe(mac: Mac, t: Table, es: seq<Event>, peer: NxId)
    requires Inv(t) && Safe(t, peer, []) && CarefulRun(mac, t, es, peer)
    ensures Safe(Run(mac, t, es, peer).0, peer, Run(mac, t, es, peer).1)
  {
    hide Inv, Safe, Careful, Marks, Next;
    if es != [] {
      RunSafe(mac, t, es[..|es| - 1], peer);
      var (t1, log) := Run(mac, t, es[..|es| - 1], peer);
      StepSafe(mac, t1, es[|es| - 1], peer, log);
    }
  }

  /** No write is flagged for the peer's link, and its stored nonce is not near the top. */
  predicate RestartAllowed(t: Table, peer: NxId)
    requires Sized(t)
  {
    Linked(t, peer) ==>
      var s := View(t, Find(t, peer).value);
      !s.persist && (s.block.Some? ==> s.block.value.nonce + NONCE_INTERVAL < UINT32_MAX)
  }

  lemma AllowedIsCareful(mac: Mac, t: Table, peer: NxId)
    requires Inv(t) && PeerRecoverable(t, peer)
    ensures RestartAllowed(t, peer) ==> Careful(mac, t, Restart, peer)
  {
    if RestartAllowed(t, peer) && Linked(t, peer) {
      var s := View(t, Find(t, peer).value);
      assert Recoverable(s);
      hide Recoverable, Inv;
      if s.block.Some? { RecoverableIsCloseBehind(s); }
    }
  }

  ghost predicate ModestRun(mac: Mac, t: Table, es: seq<Event>, peer: NxId)
    requires Inv(t)
  {
    forall n :: 0 <= n < |es| ==> Modest(mac, Run(mac, t, es[..n], peer).0, es[n], peer)
  }

  /**
   * Over a careful run in which no message jumps out of nonce 0, a peer's slot stays recoverable; so for the
   * next restart it is enough that no write is flagged and the stored nonce is not near the top.
   */
  lemma {:induction false} RunRecoverable(mac: Mac, t: Table, es: seq<Event>, peer: NxId)
    requires Inv(t) && Safe(t, peer, []) && PeerRecoverable(t, peer)
    requires CarefulRun(mac, t, es, peer) && ModestRun(mac, t, es, peer)
    ensures PeerRecoverable(Run(mac, t, es, peer).0, peer)
    ensures RestartAllowed(Run(mac, t, es, peer).0, peer) ==> Careful(mac, Run(mac, t, es, peer).0, Restart, peer)
  {
    hide Inv, Safe, Modest, Marks, Next, PeerRecoverable;
    if es != [] {
      var before := es[..|es| - 1];
      assert forall n :: 0 <= n < |before| ==> before[..n] == es[..n];
      RunRecoverable(mac, t, before, peer);
      RunSafe(mac, t, before, peer);
      var (t1, log) := Run(mac, t, before, peer);
      hide Careful;
      StepRecoverable(mac, t1, es[|es| - 1], peer, log);
    }
    AllowedIsCareful(mac, Run(mac, t, es, peer).0, peer);
  }

  lemma {:induction false} IncreasingIsTransitive(log: seq<Mark>, i: nat, j: nat)
    requires Increasing(log) && i < j < |log| && forall k :: i <= k <= j ==> log[k].Accepted?
    ensures log[i].nonce < log[j].nonce
  {
    if i + 1 < j {
      IncreasingIsTransitive(log, i, j - 1);
    }
    assert log[j - 1].Accepted? && log[j].Accepted?;
    assert Increasing(log) ==> log[j - 1].nonce < log[(j - 1) + 1].nonce;
  }

  /** Of two accepted requests with no return to 0 between them, the later has the larger nonce. */
  ghost predicate IncreasingBetweenResets(log: seq<Mark>) {
    forall i, j :: 0 <= i < j < |log| && (forall k :: i <= k <= j ==> log[k].Accepted?) ==> log[i].nonce < log[j].nonce
  }

  ghost predicate Blank(nv: seq<Option<Link>>) {
    1 <= |nv| <= 10 && forall k :: 0 <= k < |nv| ==> nv[k].None?
  }

  /** First power-up. */
  function Started(nv: seq<Option<Link>>): (t: Table)
    requires Blank(nv)
    ensures Inv(t)
  {
    BlankMemoryInv(nv);
    Init(nv)
  }

  /**
   * From blank memory, over any careful run of messages, ticks, new links and restarts, the accepted
   * nonces of a peer increase from each return to 0 to the next.
   */
  lemma AcceptedNoncesIncrease(mac: Mac, nv: seq<Option<Link>>, es: seq<Event>, peer: NxId)
    requires Blank(nv)
    ensures CarefulRun(mac, Started(nv), es, peer) ==> IncreasingBetweenResets(Run(mac, Started(nv), es, peer).1)
  {
    var t := Started(nv);
    assert Safe(t, peer, []);
    hide Inv, Started, Blank;
    if CarefulRun(mac, t, es, peer) {
      RunSafe(mac, t, es, peer);
      var log := Run(mac, t, es, peer).1;
      hide Run, Increasing, CarefulRun;
      forall i, j | 0 <= i < j < |log| && (forall k :: i <= k <= j ==> log[k].Accepted?) ensures log[i].nonce < log[j].nonce {
        IncreasingIsTransitive(log, i, j);
      }
    }
  }

  // ---------------------------------------------------------------- roles

  /** Every link, stored or queued, has one of the two roles the handshake asks for. */
  ghost predicate PlainTable(t: Table) {
    LinkIteration.PlainRoles(t) && (t.pendingAdd ==> LinkIteration.PlainMode(t.pending.mode))
  }

  lemma UsedKeepsModes(t: Table, id: NxId, nonce: U32, i: nat)
    requires Sized(t) && i < |t.links|
    ensures var t' := Used(t, id, nonce);
      Sized(t') && |t'.links| == |t.links| && t'.links[i].mode == t.links[i].mode && t'.inUse == t.inUse
      && t'.pendingAdd == t.pendingAdd && t'.pending == t.pending
  {
  }

  lemma UsedPlain(t: Table, id: NxId, nonce: U32)
    requires Sized(t) && PlainTable(t)
    ensures PlainTable(Used(t, id, nonce))
  {
    hide Used;
    UsedKeepsModes(t, id, nonce, 0);
    forall i | 0 <= i < |t.links| ensures Used(t, id, nonce).links[i].mode == t.links[i].mode { UsedKeepsModes(t, id, nonce, i); }
  }

  lemma ElapsePlain(t: Table, dt: U32)
    requires Inv(t) && PlainTable(t)
    ensures PlainTable(Links.Process(t, dt))
  {
    ProcessInv(t, dt);
    var t' := Links.Process(t, dt);
    hide Links.Process;
    forall i | 0 <= i < |t'.links| && t'.inUse[i] ensures LinkIteration.PlainMode(t'.links[i].mode) {
      ElapseSlot(t, dt, i);
    }
  }

  lemma CreatePlain(mac: Mac, t: Table, e: Event)
    requires Inv(t) && PlainTable(t) && e.Create? && LinkIteration.PlainMode(e.mode)
    ensures PlainTable(Next(mac, t, e))
  {
    var t' := Next(mac, t, e);
    CreateLinkInv(t, e.id, e.mode, e.securityMode, e.key, e.nonce);
    forall i | 0 <= i < |t'.links| && t'.inUse[i] ensures LinkIteration.PlainMode(t'.links[i].mode) {
      CreateSlot(t, e, i);
      assert View(t', i) == View(t, i);
    }
  }

  /** As long as new links get one of the two roles, no other role ever appears. */
  lemma NextPlain(mac: Mac, t: Table, e: Event)
    requires Inv(t) && PlainTable(t) && (e.Create? ==> LinkIteration.PlainMode(e.mode))
    ensures PlainTable(Next(mac, t, e))
  {
    match e
    case Receive(_, _, _, _) =>
      ReceiveOutcome(mac, t, e);
      var r := ReceivedNonce(mac, t, e.from, e.pkt, e.stale);
      hide Next, ReceivedNonce, Used, PlainTable, NonceVerdict, NonceAfter;
      if r.Some? {
        UsedPlain(t, e.from, NonceAfter(NonceVerdict(e.pkt.code, t.links[Find(t, e.from).value].nonce, r.value), r.value));
      }
    case Elapse(dt) => ElapsePlain(t, dt);
    case Restart => RebootRestores(t);
    case Create(_, _, _, _, _) => CreatePlain(mac, t, e);
    case ClearAll =>
  }

  /** Over every run in which links are made the way the handshake makes them, the walk lists each accessory. */
  lemma {:induction false} RunPlain(mac: Mac, t: Table, es: seq<Event>, peer: NxId)
    requires Inv(t) && PlainTable(t)
    requires forall n :: 0 <= n < |es| && es[n].Create? ==> LinkIteration.PlainMode(es[n].mode)
    ensures var t' := Run(mac, t, es, peer).0;
      PlainTable(t') && LinkIteration.Walked(t') == LinkIteration.LinkedAccessories(t')
  {
    hide Inv, PlainTable, Next, Marks, LinkIteration.Walked, LinkIteration.LinkedAccessories;
    if es != [] {
      RunPlain(mac, t, es[..|es| - 1], peer);
      NextPlain(mac, Run(mac, t, es[..|es| - 1], peer).0, es[|es| - 1]);
    }
    PlainWalk(Run(mac, t, es, peer).0);
  }

  lemma PlainWalk(t: Table)
    requires Inv(t) && PlainTable(t)
    ensures LinkIteration.Walked(t) == LinkIteration.LinkedAccessories(t)
  {
    LinkIteration.WalkListsAllIff(t);
  }

  // ---------------------------------------------------------------- the same request twice

  function Authenticated(mac: Mac, t: Table, peer: NxId, p: Params, stale: Tag): (a: Auth)
    requires Sized(t) && Fits(p)
    ensures Sized(a.table) && |a.table.links| == |t.links|
  {
    hide Checked, SignOf;
    Authenticate(mac, t, peer, Packet(p.method_, true, p.uri, Signed(mac, p)), true, stale)
  }

  /** p is a request that the peer in slot i can sign. */
  ghost predicate Signable(mac: Mac, t: Table, peer: NxId, i: nat, p: Params) {
    && Sized(t) && i < |t.links| && Find(t, peer) == Some(i) && p.key == t.links[i].key
    && Fits(p) && IsRequest(p.method_) && SignOf(mac, p, MAX_MESSAGE).Ok?
  }

  lemma CheckedSigned(mac: Mac, p: Params, stale: Tag)
    requires Fits(p) && SignOf(mac, p, MAX_MESSAGE).Ok?
    ensures 0 < |Signed(mac, p)| <= MAX_MESSAGE
    ensures var r := Checked(mac, p.key, Packet(p.method_, true, p.uri, Signed(mac, p)), stale); r.Ok? && r.value.nonce == p.nonce
  {
    assert SignOf(mac, p, MAX_MESSAGE).value == Signed(mac, p) && UriInAad(p.uri) == p.uri;
    SignedNotEmpty(mac, p);
    hide Signed, VerifyOf, SignOf, UriInAad;
    SignThenVerify(mac, p, MAX_MESSAGE, stale);
  }

  lemma SecondVerdict(mac: Mac, t: Table, peer: NxId, i: nat, p: Params, stale: Tag)
    requires Signable(mac, t, peer, i, p)
    ensures Authenticated(mac, t, peer, p, stale).result == NonceVerdict(p.method_, t.links[i].nonce, p.nonce)
    ensures Authenticated(mac, t, peer, p, stale).result == NoError ==>
      Authenticated(mac, t, peer, p, stale).table == Used(t, peer, p.nonce)
  {
    CheckedSigned(mac, p, stale);
    hide Signed, SignOf, Find, Checked, Used, Fits;
  }

  lemma UsedSignable(mac: Mac, t: Table, peer: NxId, i: nat, p: Params)
    requires Inv(t) && Signable(mac, t, peer, i, p)
    ensures var t' := Used(t, peer, p.nonce);
      && Inv(t') && Signable(mac, t', peer, i, p) && t'.nv == t.nv && |t'.links| == |t.links|
      && t'.links[i].nonce == if t.links[i].securityMode == COSE_MAC0_SIPHASH then p.nonce else t.links[i].nonce
  {
    hide SignOf, Fits;
    UsedInv(t, peer, p.nonce);
    UsedSameLinks(t, peer, p.nonce, peer);
  }

  lemma RestartedSignable(mac: Mac, t: Table, peer: NxId, i: nat, p: Params)
    requires Inv(t) && Signable(mac, t, peer, i, p) && peer.deviceId != 0
    ensures Inv(Init(t.nv)) && Signable(mac, Init(t.nv), peer, i, p)
    ensures t.nv[i].Some? && Init(t.nv).links[i].nonce == Add32(t.nv[i].value.nonce, NONCE_INTERVAL)
  {
    hide SignOf, Fits;
    RebootRestores(t);
    FindInUse(Init(t.nv), i);
  }

  function Repeated(mac: Mac, t: Table, peer: NxId, p: Params, stale: Tag): (r: AuthResult)
    requires Sized(t) && Fits(p)
  {
    Authenticated(mac, Authenticated(mac, t, peer, p, stale).table, peer, p, stale).result
  }

  /** An accepted request is refused when it arrives again, exactly on links of the one known security mode. */
  lemma RepeatRefused(mac: Mac, t: Table, peer: NxId, i: nat, p: Params, stale: Tag)
    requires Inv(t) && Signable(mac, t, peer, i, p)
    ensures Authenticated(mac, t, peer, p, stale).result == NoError ==>
      (Repeated(mac, t, peer, p, stale) == InvalidNonce <==> t.links[i].securityMode == COSE_MAC0_SIPHASH)
  {
    hide Inv, Used, Authenticated, SignOf, Fits, Find;
    SecondVerdict(mac, t, peer, i, p, stale);
    UsedSignable(mac, t, peer, i, p);
    SecondVerdict(mac, Used(t, peer, p.nonce), peer, i, p, stale);
  }

  /** The verdict on the request after the device restarts. */
  function AfterRestart(mac: Mac, t: Table, peer: NxId, p: Params, stale: Tag): (r: AuthResult)
    requires Sized(t) && Fits(p)
  {
    Authenticated(mac, Init(t.nv), peer, p, stale).result
  }

  /**
   * When the device restarts right after it accepts a request, the same request is accepted again
   * exactly when its nonce is above the stored one plus an interval, in 32 bits, or that sum is the top nonce.
   */
  lemma ReplayAfterRestartIff(mac: Mac, t: Table, peer: NxId, i: nat, p: Params, stale: Tag)
    requires Inv(t) && Signable(mac, t, peer, i, p) && peer.deviceId != 0
    ensures t.nv[i].Some?
    ensures Authenticated(mac, t, peer, p, stale).result == NoError ==>
      var loaded := Add32(t.nv[i].value.nonce, NONCE_INTERVAL);
      AfterRestart(mac, Authenticated(mac, t, peer, p, stale).table, peer, p, stale) == NoError <==>
        p.nonce > loaded || loaded == UINT32_MAX
  {
    hide Inv, Used, Authenticated, SignOf, Fits, Find, Init;
    SecondVerdict(mac, t, peer, i, p, stale);
    UsedSignable(mac, t, peer, i, p);
    RestartedSignable(mac, t, peer, i, p);
    SecondVerdict(mac, Init(t.nv), peer, i, p, stale);
    assert Authenticated(mac, t, peer, p, stale).result == NoError ==> Authenticated(mac, t, peer, p, stale).table.nv == t.nv;
  }

  lemma NothingWritten(t: Table, i: nat, dt: U32)
    requires Inv(t) && i < |t.links| && t.inUse[i] && !t.persist[i] && !t.pendingAdd && !t.pendingClear
    requires t.links[i].sinceActive == 0 && dt <= LINK_TIMEOUT_SECONDS
    ensures var t' := Links.Process(t, dt);
      && Inv(t') && !t'.persist[i] && t'.nv[i] == t.nv[i] && t'.links[i].key == t.links[i].key
      && Find(t', t.links[i].id) == Some(i)
  {
    TickView(t, |t.links|, dt, i);
    TickFlags(t, |t.links|, dt);
    ProcessInv(t, dt);
    assert View(Links.Process(t, dt), i) == TickedSlot(View(t, i), dt);
    FindInUse(Links.Process(t, dt), i);
  }

  lemma JumpUnwritten(mac: Mac, t: Table, peer: NxId, i: nat, p: Params, dt: U32)
    requires Inv(t) && Signable(mac, t, peer, i, p) && dt <= LINK_TIMEOUT_SECONDS
    requires t.links[i].securityMode == COSE_MAC0_SIPHASH && !t.persist[i] && !t.pendingAdd && !t.pendingClear
    requires t.links[i].nonce == 0 && p.nonce != 0
    ensures var t2 := Links.Process(Used(t, peer, p.nonce), dt);
      Inv(t2) && !t2.persist[i] && t2.nv[i] == t.nv[i] && Signable(mac, t2, peer, i, p)
  {
    hide SignOf, Fits;
    UsedSignable(mac, t, peer, i, p);
    UsedSlot(t, peer, p.nonce, i);
    var t1 := Used(t, peer, p.nonce);
    assert View(t1, i) == StoredNonce(View(t, i), p.nonce);
    assert !t1.pendingAdd && !t1.pendingClear;
    hide Used, Links.Process;
    NothingWritten(t1, i, dt);
  }

  // ---------------------------------------------------------------- a run that accepts a request twice

  /** The event of p's signed message arriving. */
  function Arrival(mac: Mac, peer: NxId, p: Params, stale: Tag): (r: Event)
    requires Fits(p)
  {
    Receive(peer, Packet(p.method_, true, p.uri, Signed(mac, p)), true, stale)
  }

  lemma ArrivalAccepted(mac: Mac, t: Table, peer: NxId, i: nat, p: Params, stale: Tag)
    requires Inv(t) && Signable(mac, t, peer, i, p) && NonceVerdict(p.method_, t.links[i].nonce, p.nonce) == NoError
    ensures Next(mac, t, Arrival(mac, peer, p, stale)) == Used(t, peer, p.nonce) && Inv(Used(t, peer, p.nonce))
    ensures Marks(mac, t, Arrival(mac, peer, p, stale), peer) == [Accepted(p.nonce)]
  {
    CheckedSigned(mac, p, stale);
    UsedInv(t, peer, p.nonce);
    UsedSameLinks(t, peer, p.nonce, peer);
    hide Signed, SignOf, Checked, Used, Fits, Inv;
    ReceiveOutcome(mac, t, Arrival(mac, peer, p, stale));
  }

  lemma RunThen(mac: Mac, t: Table, es: seq<Event>, e: Event, peer: NxId)
    requires Inv(t)
    ensures var (t1, log) := Run(mac, t, es, peer);
      Inv(t1) && Sized(Next(mac, t1, e)) && Run(mac, t, es + [e], peer) == (Next(mac, t1, e), log + Marks(mac, t1, e, peer))
  {
    assert (es + [e])[..|es|] == es;
    NextInv(mac, Run(mac, t, es, peer).0, e);
    hide Marks, Next;
  }

  function FirstLink(peer: NxId): (r: Link) {
    Link(peer, OperatingMode.Accessory, COSE_MAC0_SIPHASH, 0, 0, ZERO_KEY, 0)
  }

  function Join(peer: NxId): (r: seq<Event>) {
    [Create(peer, OperatingMode.Accessory, COSE_MAC0_SIPHASH, ZERO_KEY, 0)] + [Elapse(1)]
  }

  lemma FirstCreate(mac: Mac, t: Table, peer: NxId)
    requires Sized(t) && |t.links| == 1 && !t.inUse[0] && t.count == 0 && !t.pendingAdd && !t.pendingClear
    ensures var create := Join(peer)[0];
      var t1 := t.(pendingAdd := true, pending := FirstLink(peer));
      Next(mac, t, create) == t1 && Links.Process(t1, 1) == Occupy(t1, 0)
  {
    var t1 := t.(pendingAdd := true, pending := FirstLink(peer));
    assert Tick(t1, 1, 1) == t1;
  }

  /** A new link on a device with room for one, from first power-up on: stored with nonce 0, nothing flagged. */
  lemma JoinedRun(mac: Mac, peer: NxId)
    ensures var (t, log) := Run(mac, Started([None]), Join(peer), peer);
      && log == [Reset] && |t.links| == 1 && View(t, 0) == Slot(FirstLink(peer), true, false, Some(FirstLink(peer)))
      && !t.pendingAdd && !t.pendingClear && Find(t, peer) == Some(0)
  {
    var t0, create := Started([None]), Join(peer)[0];
    assert [create] == [] + [create];
    FirstCreate(mac, t0, peer);
    RunThen(mac, t0, [], create, peer);
    RunThen(mac, t0, [create], Elapse(1), peer);
  }

  /** The request that will arrive twice. */
  function FirstRequest(): (p: Params)
    ensures Fits(p) && IsRequest(p.method_)
  {
    Params(ZERO_KEY, 200, 2, [], [])
  }

  lemma SignableIsLinked(mac: Mac, t: Table, peer: NxId, i: nat, p: Params)
    requires Signable(mac, t, peer, i, p)
    ensures Sized(t) && Linked(t, peer)
  {
  }

  lemma TickStillLinked(mac: Mac, t: Table, peer: NxId)
    requires Sized(t) && Sized(Links.Process(t, 1)) && Linked(t, peer) && Linked(Links.Process(t, 1), peer)
    ensures Next(mac, t, Elapse(1)) == Links.Process(t, 1) && Marks(mac, t, Elapse(1), peer) == []
  {
  }

  lemma RestartStillLinked(mac: Mac, t: Table, peer: NxId)
    requires Sized(t) && Linked(t, peer) && Linked(Init(t.nv), peer)
    ensures Next(mac, t, Restart) == Init(t.nv) && Marks(mac, t, Restart, peer) == []
  {
  }

  /** An unflagged link with nonce 0, and room for no other: the request is accepted and process() writes nothing. */
  ghost predicate Waiting(mac: Mac, t: Table, peer: NxId) {
    && Inv(t) && Signable(mac, t, peer, 0, FirstRequest()) && !t.persist[0] && !t.pendingAdd && !t.pendingClear
    && t.links[0].nonce == 0 && t.links[0].securityMode == COSE_MAC0_SIPHASH && t.nv[0].Some? && t.nv[0].value.nonce == 0
  }

  lemma JoinedIsWaiting(mac: Mac, peer: NxId)
    ensures Inv(Started([None])) && Waiting(mac, Run(mac, Started([None]), Join(peer), peer).0, peer)
    ensures Run(mac, Started([None]), Join(peer), peer).1 == [Reset]
  {
    JoinedRun(mac, peer);
    hide Run, Started, Join;
    SlotIsWaiting(mac, Run(mac, Started([None]), Join(peer), peer).0, peer);
  }

  lemma SlotIsWaiting(mac: Mac, t: Table, peer: NxId)
    requires Inv(t) && |t.links| == 1 && View(t, 0) == Slot(FirstLink(peer), true, false, Some(FirstLink(peer)))
    requires !t.pendingAdd && !t.pendingClear
    ensures Waiting(mac, t, peer)
  {
    SignSucceedsIff(mac, FirstRequest(), MAX_MESSAGE);
    hide SignOf;
    assert t.links[0] == FirstLink(peer);
  }

  lemma JumpSteps(mac: Mac, t: Table, peer: NxId, stale: Tag)
    requires Waiting(mac, t, peer) && peer.deviceId != 0
    ensures var p, arrival := FirstRequest(), Arrival(mac, peer, FirstRequest(), stale);
      var t1 := Used(t, peer, 200);
      var t2 := Links.Process(t1, 1);
      && Next(mac, t, arrival) == t1 && Marks(mac, t, arrival, peer) == [Accepted(200)]
      && Sized(t1) && Next(mac, t1, Elapse(1)) == t2 && Marks(mac, t1, Elapse(1), peer) == []
      && Inv(t2) && Signable(mac, t2, peer, 0, p) && !t2.persist[0] && t2.nv[0].Some? && t2.nv[0].value.nonce == 0
  {
    var p := FirstRequest();
    assert NonceVerdict(p.method_, 0, 200) == NoError;
    hide Used, Links.Process, Inv, Signable, Find, NonceVerdict, Next, Marks, Arrival;
    ArrivalAccepted(mac, t, peer, 0, p, stale);
    JumpUnwritten(mac, t, peer, 0, p, 1);
    UsedSignable(mac, t, peer, 0, p);
    SignableIsLinked(mac, Used(t, peer, 200), peer, 0, p);
    SignableIsLinked(mac, Links.Process(Used(t, peer, 200), 1), peer, 0, p);
    TickStillLinked(mac, Used(t, peer, 200), peer);
  }

  lemma ReplaySteps(mac: Mac, t: Table, peer: NxId, stale: Tag)
    requires Inv(t) && Signable(mac, t, peer, 0, FirstRequest()) && peer.deviceId != 0
    requires t.nv[0].Some? && t.nv[0].value.nonce == 0
    ensures var arrival := Arrival(mac, peer, FirstRequest(), stale);
      && Next(mac, t, Restart) == Init(t.nv) && Marks(mac, t, Restart, peer) == []
      && Sized(Init(t.nv)) && Inv(Next(mac, Init(t.nv), arrival)) && Marks(mac, Init(t.nv), arrival, peer) == [Accepted(200)]
  {
    var p := FirstRequest();
    assert NonceVerdict(p.method_, 64, 200) == NoError && Add32(0, NONCE_INTERVAL) == 64;
    hide Used, Inv, Signable, Find, NonceVerdict, Next, Marks, Arrival, Init;
    RestartedSignable(mac, t, peer, 0, p);
    SignableIsLinked(mac, t, peer, 0, p);
    SignableIsLinked(mac, Init(t.nv), peer, 0, p);
    RestartStillLinked(mac, t, peer);
    ArrivalAccepted(mac, Init(t.nv), peer, 0, p, stale);
  }

  lemma SameNonceTwice()
    ensures !IncreasingBetweenResets([Reset, Accepted(200), Accepted(200)])
  {
    var log := [Reset, Accepted(200), Accepted(200)];
    assert log[1].nonce == log[2].nonce;
  }

  /** The request was accepted, and nothing is flagged or stored behind it. */
  ghost predicate Jumped(mac: Mac, t: Table, peer: NxId) {
    Inv(t) && Signable(mac, t, peer, 0, FirstRequest()) && !t.persist[0] && t.nv[0].Some? && t.nv[0].value.nonce == 0
  }

  lemma WaitingJumps(mac: Mac, t0: Table, es: seq<Event>, peer: NxId, stale: Tag)
    requires Inv(t0) && Waiting(mac, Run(mac, t0, es, peer).0, peer) && peer.deviceId != 0
    ensures var (t, log) := Run(mac, t0, es + [Arrival(mac, peer, FirstRequest(), stale)] + [Elapse(1)], peer);
      Jumped(mac, t, peer) && log == Run(mac, t0, es, peer).1 + [Accepted(200)]
  {
    hide Run, Arrival, FirstRequest, Inv, Signable, Used, Links.Process, Marks, Next, Find;
    var arrival := Arrival(mac, peer, FirstRequest(), stale);
    var (t, log) := Run(mac, t0, es, peer);
    JumpSteps(mac, t, peer, stale);
    RunThen(mac, t0, es, arrival, peer);
    RunThen(mac, t0, es + [arrival], Elapse(1), peer);
    assert log + [Accepted(200)] + [] == log + [Accepted(200)];
  }

  lemma JumpedReplays(mac: Mac, t0: Table, es: seq<Event>, peer: NxId, stale: Tag)
    requires Inv(t0) && Jumped(mac, Run(mac, t0, es, peer).0, peer) && peer.deviceId != 0
    ensures Run(mac, t0, es + [Restart] + [Arrival(mac, peer, FirstRequest(), stale)], peer).1 ==
      Run(mac, t0, es, peer).1 + [Accepted(200)]
  {
    hide Run, Arrival, FirstRequest, Inv, Signable, Marks, Next, Find, Init;
    var arrival := Arrival(mac, peer, FirstRequest(), stale);
    var (t, log) := Run(mac, t0, es, peer);
    ReplaySteps(mac, t, peer, stale);
    RunThen(mac, t0, es, Restart, peer);
    RunThen(mac, t0, es + [Restart], arrival, peer);
    assert log + [] + [Accepted(200)] == log + [Accepted(200)];
  }

  /**
   * Six events from first power-up with nothing flagged at the restart: a new link is stored, a request jumps
   * its nonce from 0 past the interval, process() runs and writes nothing, the device restarts, and the
   * same request is accepted again.
   */
  lemma JumpFromZeroReplays(mac: Mac, peer: NxId, stale: Tag)
    requires peer.deviceId != 0
    ensures var arrival := Arrival(mac, peer, FirstRequest(), stale);
      Jumped(mac, Run(mac, Started([None]), Join(peer) + [arrival] + [Elapse(1)], peer).0, peer)
    ensures var arrival := Arrival(mac, peer, FirstRequest(), stale);
      var log := Run(mac, Started([None]), Join(peer) + [arrival] + [Elapse(1)] + [Restart] + [arrival], peer).1;
      log == [Reset, Accepted(200), Accepted(200)] && !IncreasingBetweenResets(log)
  {
    hide Run, Started, Arrival, Join, FirstRequest, Inv, Waiting, Jumped, IncreasingBetweenResets;
    var t0, arrival := Started([None]), Arrival(mac, peer, FirstRequest(), stale);
    JoinedIsWaiting(mac, peer);
    WaitingJumps(mac, t0, Join(peer), peer, stale);
    JumpedReplays(mac, t0, Join(peer) + [arrival] + [Elapse(1)], peer, stale);
    SameNonceTwice();
    assert [Reset] + [Accepted(200)] + [Accepted(200)] == [Reset, Accepted(200), Accepted(200)];
  }
}
