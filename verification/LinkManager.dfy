/** The link manager: fixed slot arrays in RAM, one nonvolatile block per slot. */
module LinkManager {
  import opened Prelude
  import opened Links
  import opened LinkIteration

  class LinkManager {
    const links: array<Link>
    const linkIdxInUse: array<bool>
    const linkIdxShouldPersistNonce: array<bool>
    const nvBlocks: array<Option<Link>>
    var linkCount: U8
    var pendingAddLink: bool
    var pendingLinkToCreate: Link
    var pendingClearAllLinks: bool

    ghost predicate Allocated()
      reads this
    {
      && linkIdxInUse != linkIdxShouldPersistNonce
      && links.Length == linkIdxInUse.Length == linkIdxShouldPersistNonce.Length == nvBlocks.Length
      && 1 <= links.Length <= 10
    }

    ghost function State(): (r: Table)
      reads this, links, linkIdxInUse, linkIdxShouldPersistNonce, nvBlocks
    {
      Table(links[..], linkIdxInUse[..], linkIdxShouldPersistNonce[..], nvBlocks[..],
            linkCount, pendingAddLink, pendingLinkToCreate, pendingClearAllLinks)
    }

    /** Power-up with the given nonvolatile memory. */
    constructor (nv: seq<Option<Link>>)
      requires 1 <= |nv| <= 10
      ensures Allocated() && State() == Links.Init(nv)
      ensures fresh(links) && fresh(linkIdxInUse) && fresh(linkIdxShouldPersistNonce) && fresh(nvBlocks)
    {
      links := new Link[|nv|](_ => ZERO_LINK);
      linkIdxInUse := new bool[|nv|](_ => false);
      linkIdxShouldPersistNonce := new bool[|nv|](_ => false);
      nvBlocks := new Option<Link>[|nv|](i requires 0 <= i < |nv| => nv[i]);
      linkCount, pendingAddLink, pendingLinkToCreate, pendingClearAllLinks := 0, false, ZERO_LINK, false;
      new;
      assert nvBlocks[..] == nv;
      Init();
    }

    /** nexus_channel_link_manager_init() */
    method Init()
      requires Allocated()
      modifies this, links, linkIdxInUse, linkIdxShouldPersistNonce
      ensures State() == Links.Init(nvBlocks[..])
    {
      ClearRam();
      LoadedAll(nvBlocks[..]);
      hide LoadedUpTo, Links.Init, Links.LoadSlot;
      for i := 0 to links.Length
        invariant State() == LoadedUpTo(nvBlocks[..], i)
      {
        LoadedOneMore(nvBlocks[..], i);
        LoadSlot(i);
      }
    }

    method ClearRam()
      requires Allocated()
      modifies this, links, linkIdxInUse, linkIdxShouldPersistNonce
      ensures State() == LoadedUpTo(nvBlocks[..], 0)
    {
      for i := 0 to links.Length
        invariant forall j :: 0 <= j < i ==> links[j] == ZERO_LINK
        invariant forall j :: 0 <= j < i ==> !linkIdxInUse[j]
        invariant forall j :: 0 <= j < i ==> !linkIdxShouldPersistNonce[j]
      {
        links[i], linkIdxInUse[i], linkIdxShouldPersistNonce[i] := ZERO_LINK, false, false;
      }
      linkCount, pendingAddLink, pendingLinkToCreate, pendingClearAllLinks := 0, false, ZERO_LINK, false;
    }

    /** Copies one nonvolatile block into its slot, unless its device id is 0. */
    method LoadSlot(i: nat)
      requires Allocated() && i < links.Length
      modifies `linkCount, links, linkIdxInUse, linkIdxShouldPersistNonce
      ensures State() == Links.LoadSlot(old(State()), i)
    {
      if nvBlocks[i].None? {
        return;
      }
      var tmp := nvBlocks[i].value;
      if tmp.id.deviceId == 0 {
        return;
      }
      links[i] := tmp;
      linkCount := (linkCount + 1) % 0x100;
      linkIdxInUse[i] := true;
      links[i] := links[i].(nonce := Add32(links[i].nonce, NONCE_INTERVAL));
      linkIdxShouldPersistNonce[i] := true;
    }

    /** Clears one slot in RAM and in nonvolatile memory. */
    method ClearLinkInternal(i: nat)
      requires Allocated() && i < links.Length
      modifies `linkCount, links, linkIdxInUse, nvBlocks
      ensures State() == ClearSlot(old(State()), i)
    {
      if !linkIdxInUse[i] {
        return;
      }
      links[i] := ZERO_LINK;
      linkIdxInUse[i] := false;
      nvBlocks[i] := Some(links[i]);
      linkCount := (linkCount + 0xFF) % 0x100;
    }

    method ClearLinksInternal()
      requires Allocated()
      modifies `linkCount, links, linkIdxInUse, nvBlocks
      ensures State() == ClearSlots(old(State()), links.Length)
    {
      for i := 0 to links.Length
        invariant State() == ClearSlots(old(State()), i)
      {
        ClearLinkInternal(i);
      }
    }

    /** The per-slot part of process(). */
    method ProcessSlot(i: nat, secondsElapsed: U32)
      requires Allocated() && i < links.Length
      modifies `linkCount, links, linkIdxInUse, linkIdxShouldPersistNonce, nvBlocks
      ensures State() == TickSlot(old(State()), i, secondsElapsed)
    {
      if !linkIdxInUse[i] {
        return;
      }
      links[i] := links[i].(sinceInit := Add32(links[i].sinceInit, secondsElapsed));
      links[i] := links[i].(sinceActive := Add32(links[i].sinceActive, secondsElapsed));
      assert links[..] == old(links[..])[i := Aged(old(links[i]), secondsElapsed)];
      if links[i].sinceActive > LINK_TIMEOUT_SECONDS {
        ClearLinkInternal(i);
      } else if links[i].securityMode == COSE_MAC0_SIPHASH {
        if linkIdxShouldPersistNonce[i] {
          nvBlocks[i] := Some(links[i]);
          linkIdxShouldPersistNonce[i] := false;
        }
      }
    }

    /** nexus_channel_link_manager_process() */
    method Process(secondsElapsed: U32)
      requires Allocated()
      modifies this, links, linkIdxInUse, linkIdxShouldPersistNonce, nvBlocks
      ensures State() == Links.Process(old(State()), secondsElapsed)
    {
      for i := 0 to links.Length
        invariant State() == Tick(old(State()), i, secondsElapsed)
      {
        ProcessSlot(i, secondsElapsed);
      }
      if pendingAddLink {
        AddPendingLink();
      } else if pendingClearAllLinks {
        ClearLinksInternal();
        pendingClearAllLinks := false;
      }
    }

    method AddPendingLink()
      requires Allocated()
      modifies this, links, linkIdxInUse, nvBlocks
      ensures State() == AddPending(old(State()))
    {
      var i := 0;
      while i < links.Length && linkIdxInUse[i]
        invariant 0 <= i <= links.Length && FirstFreeFrom(linkIdxInUse[..], 0) == FirstFreeFrom(linkIdxInUse[..], i)
      {
        i := i + 1;
      }
      if i < links.Length {
        linkCount := (linkCount + 1) % 0x100;
        linkIdxInUse[i] := true;
        links[i] := pendingLinkToCreate;
        nvBlocks[i] := Some(links[i]);
      }
      pendingLinkToCreate := ZERO_LINK;
      pendingAddLink := false;
    }

    /** The used slot linked to id, if any. */
    method LinkIndexFromNxid(id: NxId) returns (at: Option<nat>)
      requires Allocated()
      ensures at == Find(State(), id)
    {
      for i := 0 to links.Length
        invariant Find(State(), id) == FindFrom(State(), id, i)
      {
        if linkIdxInUse[i] && links[i].id == id {
          return Some(i);
        }
      }
      at := None;
    }

    method OldestAccessoryLinkIdx() returns (oldest: Option<nat>)
      requires Allocated()
      ensures oldest == OldestAccessory(State(), links.Length)
    {
      oldest := None;
      var oldestSecsSinceInit: U32 := 0;
      for i := 0 to links.Length
        invariant oldest == OldestAccessory(State(), i)
        invariant oldestSecsSinceInit == if oldest.Some? then links[oldest.value].sinceInit else 0
      {
        if links[i].mode == Accessory {
          if linkIdxInUse[i] && links[i].sinceInit >= oldestSecsSinceInit {
            oldestSecsSinceInit := links[i].sinceInit;
            oldest := Some(i);
          }
        }
      }
    }

    /** nexus_channel_link_manager_create_link() */
    method CreateLink(id: NxId, mode: OperatingMode, securityMode: U8, key: Key, nonce: U32) returns (queued: bool)
      requires Allocated()
      modifies this, links, linkIdxInUse, nvBlocks
      ensures (State(), queued) == Links.CreateLink(old(State()), id, mode, securityMode, key, nonce)
    {
      if pendingAddLink {
        return false;
      }
      var known := LinkIndexFromNxid(id);
      if known.Some? {
        ClearLinkInternal(known.value);
      } else if linkCount == links.Length {
        if mode != Accessory {
          return false;
        }
        var oldest := OldestAccessoryLinkIdx();
        if oldest.None? {
          return false;
        }
        ClearLinkInternal(oldest.value);
      }
      pendingAddLink := true;
      pendingLinkToCreate := ZERO_LINK.(mode := mode, securityMode := securityMode, id := id, key := key, nonce := nonce);
      queued := true;
    }

    method ClearAllLinks()
      requires Allocated()
      modifies `pendingClearAllLinks
      ensures State() == Links.ClearAllLinks(old(State()))
    {
      pendingClearAllLinks := true;
    }

    /** nexus_channel_link_manager_set_security_data_auth_nonce() */
    method SetSecurityDataAuthNonce(id: NxId, newNonce: U32) returns (done: bool)
      requires Allocated()
      modifies links, linkIdxShouldPersistNonce
      ensures (State(), done) == SetNonce(old(State()), id, newNonce)
    {
      var at := LinkIndexFromNxid(id);
      if at.None? || links[at.value].securityMode != COSE_MAC0_SIPHASH {
        return false;
      }
      var i := at.value;
      var oldNonce := links[i].nonce;
      if newNonce == 0 {
        linkIdxShouldPersistNonce[i] := true;
      } else if newNonce > oldNonce && oldNonce > 0 {
        var crossed := FindBoundary(oldNonce, newNonce);
        if crossed {
          linkIdxShouldPersistNonce[i] := true;
        }
      }
      assert linkIdxShouldPersistNonce[..] ==
        old(linkIdxShouldPersistNonce[..])[i := old(linkIdxShouldPersistNonce[i]) || FlagsPersist(oldNonce, newNonce)];
      links[i] := links[i].(nonce := newNonce);
      done := true;
    }

    method ResetLinkSecsSinceActive(id: NxId)
      requires Allocated()
      modifies links
      ensures State() == ResetSecsSinceActive(old(State()), id)
    {
      var at := LinkIndexFromNxid(id);
      if at.Some? {
        links[at.value] := links[at.value].(sinceActive := 0);
      }
    }

    /** nexus_channel_link_manager_accessory_link_count() */
    method AccessoryLinkCount() returns (count: nat)
      requires Allocated()
      ensures count == AccessoryCount(State(), links.Length)
    {
      count := 0;
      for i := 0 to links.Length
        invariant count == AccessoryCount(State(), i)
      {
        if linkIdxInUse[i] && links[i].mode == Controller {
          count := count + 1;
        }
      }
    }

    /** nexus_channel_link_manager_next_linked_accessory() */
    method NextLinkedAccessory(previous: Option<NxId>) returns (next: Option<NxId>)
      requires Allocated()
      ensures next == NextAccessory(State(), previous)
    {
      ghost var t := State();
      var n := links.Length;
      var count := AccessoryLinkCount();
      if previous.None? || count == 1 {
        for i := 0 to n
          invariant FirstServing(t, 0, n) == FirstServing(t, i, n)
        {
          if linkIdxInUse[i] && links[i].mode != Accessory {
            return Some(links[i].id);
          }
        }
        return None;
      }
      var at := LinkIndexFromNxid(previous.value);
      if at.None? {
        return None;
      }
      next := NextAfterSlot(at.value);
    }

    /** All slots but p, starting behind it and going round. */
    method NextAfterSlot(p: nat) returns (next: Option<NxId>)
      requires Allocated() && p < links.Length
      ensures next == IdAt(State(), NextServing(State(), p))
    {
      ghost var t := State();
      var n := links.Length;
      hide FirstServing, NextServing, Remaining;
      RemainingStep(t, p, p + n);
      for i := p + 1 to p + n
        invariant NextServing(t, p) == Remaining(t, p, i)
      {
        var linkIdx := i % n;
        WrapsOnce(i, n);
        RemainingStep(t, p, i);
        if linkIdxInUse[linkIdx] && links[linkIdx].mode != Accessory {
          return Some(links[linkIdx].id);
        }
      }
      next := None;
    }
  }

  /** The next multiple of the interval is the old nonce plus what it lacks to one. */
  lemma NextBoundary(oldNonce: U32, steps: nat)
    requires 1 <= steps <= NONCE_INTERVAL - oldNonce % NONCE_INTERVAL
    ensures (oldNonce + steps) % 0x1_0000_0000 % NONCE_INTERVAL == 0 <==> steps == NONCE_INTERVAL - oldNonce % NONCE_INTERVAL
  {
    assert (oldNonce + steps) % 0x1_0000_0000 % 64 == (oldNonce + steps) % 64;
  }

  lemma CrossingIsReachingTheBoundary(oldNonce: U32, newNonce: U32)
    requires newNonce > oldNonce
    ensures newNonce / NONCE_INTERVAL > oldNonce / NONCE_INTERVAL
      <==> newNonce - oldNonce >= NONCE_INTERVAL - oldNonce % NONCE_INTERVAL
  {
  }

  /**
   * The boundary search of set_security_data_auth_nonce(). The 32-bit counter wraps to 0 after
   * UINT32_MAX, yet a multiple of the interval is met within one interval of steps.
   */
  method FindBoundary(oldNonce: U32, newNonce: U32) returns (crossed: bool)
    requires newNonce > oldNonce
    ensures crossed <==> CrossesInterval(oldNonce, newNonce)
  {
    ghost var lacking := NONCE_INTERVAL - oldNonce % NONCE_INTERVAL;
    CrossingIsReachingTheBoundary(oldNonce, newNonce);
    var i: U32 := Add32(oldNonce, 1);
    ghost var steps := 1;
    crossed := false;
    while i <= newNonce
      invariant 1 <= steps <= lacking && i == (oldNonce + steps) % 0x1_0000_0000
      invariant oldNonce + steps <= newNonce + 1
      decreases lacking - steps
    {
      NextBoundary(oldNonce, steps);
      if i % NONCE_INTERVAL == 0 {
        crossed := true;
        break;
      }
      i := Add32(i, 1);
      steps := steps + 1;
    }
  }
}
