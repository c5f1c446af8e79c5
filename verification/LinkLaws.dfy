/** Which links each operation of the link manager keeps, slot by slot, and how long an idle link lasts. */
module LinkLaws {
  import opened Prelude
  import opened Links

  ghost predicate HasLink(t: Table, id: NxId) {
    exists i :: UsedBy(t, i, id)
  }

  ghost predicate UsedBy(t: Table, i: int, id: NxId) {
    0 <= i < |t.links| == |t.inUse| && t.inUse[i] && t.links[i].id == id
  }

  ghost predicate Full(t: Table) {
    forall i :: 0 <= i < |t.inUse| ==> t.inUse[i]
  }

  /** Slot i is erased in RAM and in nonvolatile memory; everything else is as it was. */
  ghost predicate Erased(t: Table, t': Table, i: nat)
    requires Sized(t) && i < |t.links|
  {
    && t'.links == t.links[i := ZERO_LINK] && t'.inUse == t.inUse[i := false] && t'.nv == t.nv[i := Some(ZERO_LINK)]
    && t'.persist == t.persist && t'.count + 1 == t.count && t'.pendingClear == t.pendingClear
  }

  ghost predicate SameSlots(t: Table, t': Table) {
    t' == t.(pendingAdd := t'.pendingAdd, pending := t'.pending)
  }

  /** The longest established link in the accessory role, and the last of equals. */
  ghost predicate LongestEstablished(t: Table, i: nat) {
    && IsAccessoryLink(t, i)
    && forall j :: IsAccessoryLink(t, j) ==>
         t.links[j].sinceInit <= t.links[i].sinceInit && (j > i ==> t.links[j].sinceInit < t.links[i].sinceInit)
  }

  ghost predicate CanEvict(t: Table, mode: OperatingMode) {
    mode == Accessory && exists i :: IsAccessoryLink(t, i)
  }

  /**
   * create_link() refuses exactly when a link is queued already, or the table is full, the id is new and no accessory
   * link may go; then nothing changes. Otherwise the link is queued and the table is as it was, but for the old
   * link with that id, or, when the table is full and the id is new, the longest established accessory link.
   */
  lemma CreateLinkMeaning(t: Table, id: NxId, mode: OperatingMode, securityMode: U8, key: Key, nonce: U32)
    requires Inv(t)
    ensures var (t', yes) := CreateLink(t, id, mode, securityMode, key, nonce);
      && (yes <==> !t.pendingAdd && (HasLink(t, id) || !Full(t) || CanEvict(t, mode)))
      && (!yes ==> t' == t)
      && (yes ==> t'.pendingAdd && t'.pending == Link(id, mode, securityMode, 0, 0, key, nonce))
      && (yes && !HasLink(t, id) && !Full(t) ==> SameSlots(t, t'))
      && (yes && HasLink(t, id) ==> exists i :: UsedBy(t, i, id) && Erased(t, t', i))
      && (yes && !HasLink(t, id) && Full(t) ==> exists i :: 0 <= i < |t.links| && LongestEstablished(t, i) && Erased(t, t', i))
  {
    NotFullHasFree(t.inUse);
    hide CountTrue, FindFrom, OldestAccessory;
    var known, oldest := Find(t, id), OldestAccessory(t, |t.links|);
    assert HasLink(t, id) <==> known.Some? by {
      if known.Some? { assert UsedBy(t, known.value, id); }
    }
    assert CanEvict(t, mode) <==> mode == Accessory && oldest.Some? by {
      if oldest.Some? { assert IsAccessoryLink(t, oldest.value); }
    }
    var (t', yes) := CreateLink(t, id, mode, securityMode, key, nonce);
    if yes && known.Some? {
      CountsUsed(t, known.value);
      assert UsedBy(t, known.value, id) && Erased(t, t', known.value);
    } else if yes && Full(t) {
      CountsUsed(t, oldest.value);
      assert LongestEstablished(t, oldest.value) && Erased(t, t', oldest.value);
    }
  }

  lemma CountsUsed(t: Table, i: nat)
    requires Inv(t) && i < |t.links| && t.inUse[i]
    ensures t.count > 0
  {
    CountUpdate(t.inUse, i, false);
  }

  /** Slot i of the table has another link and flag, and nothing else is changed. */
  ghost predicate Updated(t: Table, t': Table, i: int, l: Link, flag: bool) {
    0 <= i < |t.links| == |t.persist| && t' == t.(links := t.links[i := l], persist := t.persist[i := flag])
  }

  /**
   * Setting a nonce changes it for the link with that id, if that stores nonces, and flags it for writing when the new
   * nonce is 0, or above an old one that is not 0 and in a later interval of 64 or the top number.
   */
  lemma SetNonceMeaning(t: Table, id: NxId, nonce: U32)
    requires Inv(t)
    ensures var (t', yes) := SetNonce(t, id, nonce);
      && (yes <==> exists i :: UsedBy(t, i, id) && t.links[i].securityMode == 0)
      && (!yes ==> t' == t)
      && forall i :: UsedBy(t, i, id) && t.links[i].securityMode == 0 ==>
           var l := t.links[i];
           var moves := nonce > l.nonce > 0 && (nonce / 64 > l.nonce / 64 || nonce == 0xFFFF_FFFF);
           Updated(t, t', i, l.(nonce := nonce), t.persist[i] || nonce == 0 || moves)
  {
    hide CountTrue, FindFrom;
    var known := Find(t, id);
    if known.Some? { assert UsedBy(t, known.value, id); }
    OneSlotEach(t, id);
  }

  lemma OneSlotEach(t: Table, id: NxId)
    requires Inv(t)
    ensures forall i :: UsedBy(t, i, id) ==> Find(t, id) == Some(i)
  {
    hide CountTrue, FindFrom;
  }

  /** Activity sets the timer of the link with that id to 0, and changes nothing else. */
  lemma ActivityMeaning(t: Table, id: NxId)
    requires Inv(t)
    ensures var t' := ResetSecsSinceActive(t, id);
      && (!HasLink(t, id) ==> t' == t)
      && forall i :: UsedBy(t, i, id) ==> Updated(t, t', i, t.links[i].(sinceActive := 0), t.persist[i])
  {
    OneSlotEach(t, id);
    hide CountTrue, FindFrom, Inv;
    var known := Find(t, id);
    if known.Some? {
      assert UsedBy(t, known.value, id);
      assert t.persist[known.value := t.persist[known.value]] == t.persist;
    }
  }

  /** A restart takes each block that is a link as it is, with its nonce 64 further on in 32 bits and flagged for writing. */
  lemma RestartMeaning(nv: seq<Option<Link>>, i: nat)
    requires i < |nv| <= 10
    ensures var t := Init(nv);
      && t.nv == nv && |t.links| == |t.inUse| == |t.persist| == |nv|
      && (if nv[i].Some? && nv[i].value.id.deviceId != 0
          then t.inUse[i] && t.persist[i] && t.links[i] == nv[i].value.(nonce := (nv[i].value.nonce + 64) % 0x1_0000_0000)
          else !t.inUse[i] && !t.persist[i] && t.links[i] == ZERO_LINK)
      && !t.pendingAdd && !t.pendingClear && t.pending == ZERO_LINK
  {
  }

  // ---------------------------------------------------------------- one call of process()

  predicate TimesOut(t: Table, i: nat, dt: U32)
    requires i < |t.links| == |t.inUse|
  {
    t.inUse[i] && (t.links[i].sinceActive + dt) % 0x1_0000_0000 > LINK_TIMEOUT_SECONDS
  }

  /** The slot holds a link that stays. */
  predicate Stays(t: Table, i: nat, dt: U32)
    requires i < |t.links| == |t.inUse|
  {
    t.inUse[i] && !TimesOut(t, i, dt)
  }

  predicate WritesBack(t: Table, i: nat)
    requires Sized(t) && i < |t.links|
  {
    t.persist[i] && t.links[i].securityMode == COSE_MAC0_SIPHASH
  }

  /** A link that stays is older by dt, and written to nonvolatile memory exactly if it was flagged. */
  ghost predicate Kept(t: Table, t': Table, i: nat, dt: U32)
    requires Sized(t) && Sized(t') && |t'.links| == |t.links| && i < |t.links|
  {
    var l, l' := t.links[i], t'.links[i];
    && t'.inUse[i]
    && l' == l.(sinceInit := (l.sinceInit + dt) % 0x1_0000_0000, sinceActive := (l.sinceActive + dt) % 0x1_0000_0000)
    && t'.nv[i] == (if WritesBack(t, i) then Some(l') else t.nv[i])
    && t'.persist[i] == (t.persist[i] && !WritesBack(t, i))
  }

  /** The slot is free, and its block is zero if it held a link. */
  ghost predicate Freed(t: Table, t': Table, i: nat)
    requires Sized(t) && Sized(t') && |t'.links| == |t.links| && i < |t.links|
  {
    !t'.inUse[i] && t'.links[i] == ZERO_LINK && t'.nv[i] == if t.inUse[i] then Some(ZERO_LINK) else t.nv[i]
  }

  ghost predicate SameSlot(t: Table, t': Table, i: nat)
    requires Sized(t) && Sized(t') && |t'.links| == |t.links| && i < |t.links|
  {
    t'.links[i] == t.links[i] && t'.inUse[i] == t.inUse[i] && t'.nv[i] == t.nv[i] && t'.persist[i] == t.persist[i]
  }

  lemma TickSlotMeaning(t: Table, n: nat, dt: U32, i: nat)
    requires Sized(t) && n < |t.links| && i < |t.links| && (!t.inUse[i] ==> t.links[i] == ZERO_LINK)
    ensures var t' := TickSlot(t, n, dt);
      && (n != i ==> SameSlot(t, t', i))
      && (n == i ==> if Stays(t, i, dt) then Kept(t, t', i, dt) else Freed(t, t', i))
  {
  }

  lemma {:induction false} TickMeaning(t: Table, n: nat, dt: U32, i: nat)
    requires Sized(t) && n <= |t.links| && i < |t.links| && (!t.inUse[i] ==> t.links[i] == ZERO_LINK)
    ensures var t' := Tick(t, n, dt);
      && (i >= n ==> SameSlot(t, t', i))
      && (i < n ==> if Stays(t, i, dt) then Kept(t, t', i, dt) else Freed(t, t', i))
  {
    hide TickSlot, Kept, Freed, SameSlot, Stays;
    if n == 0 {
      SameAsItself(t, i);
    } else {
      var before := Tick(t, n - 1, dt);
      TickMeaning(t, n - 1, dt, i);
      if i < n - 1 { FreeSlotIsZero(t, n - 1, dt, i); } else { SameSlotStays(t, before, i, dt); }
      TickSlotMeaning(before, n - 1, dt, i);
      SameSlotBoth(t, before, Tick(t, n, dt), i, dt);
    }
  }

  lemma SameAsItself(t: Table, i: nat)
    requires Sized(t) && i < |t.links|
    ensures SameSlot(t, t, i)
  {
  }

  lemma SameSlotStays(t: Table, t': Table, i: nat, dt: U32)
    requires Sized(t) && Sized(t') && |t'.links| == |t.links| && i < |t.links| && SameSlot(t, t', i)
    ensures Stays(t', i, dt) == Stays(t, i, dt) && t'.inUse[i] == t.inUse[i] && t'.links[i] == t.links[i]
  {
  }

  /** What happened to a slot in one of two steps happened to it in both when the other left it as it was. */
  lemma SameSlotBoth(t: Table, t1: Table, t2: Table, i: nat, dt: U32)
    requires Sized(t) && Sized(t1) && Sized(t2) && |t.links| == |t1.links| == |t2.links| && i < |t.links|
    ensures SameSlot(t, t1, i) && SameSlot(t1, t2, i) ==> SameSlot(t, t2, i)
    ensures SameSlot(t, t1, i) && Kept(t1, t2, i, dt) ==> Kept(t, t2, i, dt)
    ensures SameSlot(t, t1, i) && Freed(t1, t2, i) ==> Freed(t, t2, i)
    ensures Kept(t, t1, i, dt) && SameSlot(t1, t2, i) ==> Kept(t, t2, i, dt)
    ensures Freed(t, t1, i) && SameSlot(t1, t2, i) ==> Freed(t, t2, i)
  {
  }

  lemma FreeSlotIsZero(t: Table, n: nat, dt: U32, i: nat)
    requires Sized(t) && i < n <= |t.links|
    requires if Stays(t, i, dt) then Kept(t, Tick(t, n, dt), i, dt) else Freed(t, Tick(t, n, dt), i)
    ensures !Tick(t, n, dt).inUse[i] ==> Tick(t, n, dt).links[i] == ZERO_LINK
  {
    hide Tick;
  }

  lemma {:induction false} ClearSlotsMeaning(t: Table, n: nat, i: nat)
    requires Sized(t) && n <= |t.links| && i < |t.links| && (!t.inUse[i] ==> t.links[i] == ZERO_LINK)
    ensures if i < n then Freed(t, ClearSlots(t, n), i)
      else ClearSlots(t, n).links[i] == t.links[i] && ClearSlots(t, n).inUse[i] == t.inUse[i] && ClearSlots(t, n).nv[i] == t.nv[i]
  {
    hide ClearSlot, Freed;
    if n > 0 {
      ClearSlotsMeaning(t, n - 1, i);
      ClearedAfter(t, ClearSlots(t, n - 1), n - 1, i);
    }
  }

  lemma ClearedAfter(t: Table, before: Table, n: nat, i: nat)
    requires Sized(t) && Sized(before) && n < |before.links| == |t.links| && i < |t.links|
    requires !t.inUse[i] ==> t.links[i] == ZERO_LINK
    requires if i < n then Freed(t, before, i)
      else before.links[i] == t.links[i] && before.inUse[i] == t.inUse[i] && before.nv[i] == t.nv[i]
    ensures var after := ClearSlot(before, n);
      if i <= n then Freed(t, after, i)
      else after.links[i] == t.links[i] && after.inUse[i] == t.inUse[i] && after.nv[i] == t.nv[i]
  {
  }

  /** The queued link goes into slot i: the first one that holds no link that stays. */
  predicate TakesPending(t: Table, i: nat, dt: U32)
    requires i < |t.links| == |t.inUse|
  {
    t.pendingAdd && !Stays(t, i, dt) && forall j :: 0 <= j < i ==> Stays(t, j, dt)
  }

  /**
   * What process() makes of slot i: the queued link goes into the first slot without a link that stays; otherwise a
   * link that stays is kept, unless all links are to be cleared and none is queued, and any other slot is free.
   */
  lemma ProcessMeaning(t: Table, dt: U32, i: nat)
    requires Inv(t) && i < |t.links|
    ensures var t' := Process(t, dt);
      && Sized(t') && |t'.links| == |t.links|
      && t'.pendingClear == (t.pendingClear && t.pendingAdd) && !t'.pendingAdd && t'.pending == ZERO_LINK
      && (TakesPending(t, i, dt) ==> t'.inUse[i] && t'.links[i] == t.pending && t'.nv[i] == Some(t.pending))
      && (!TakesPending(t, i, dt) ==>
            if Stays(t, i, dt) && (t.pendingAdd || !t.pendingClear) then Kept(t, t', i, dt) else Freed(t, t', i))
  {
    var t1 := Tick(t, |t.links|, dt);
    TickMeaning(t, |t.links|, dt, i);
    TickFlags(t, |t.links|, dt);
    TickInv(t, |t.links|, dt);
    forall j | 0 <= j < |t.links| ensures t1.inUse[j] <==> Stays(t, j, dt) {
      TickMeaning(t, |t.links|, dt, j);
    }
    ProcessInv(t, dt);
    hide Tick, Kept, Stays;
    if t1.pendingAdd {
      NotFullHasFree(t1.inUse);
      assert FirstFreeFrom(t1.inUse, 0).Some?;
      AddedSlot(t, t1, dt, i);
    } else if t1.pendingClear {
      ClearSlotsMeaning(t1, |t1.links|, i);
      ClearedSlot(t, t1, ClearSlots(t1, |t1.links|), dt, i);
    }
  }

  lemma AddedSlot(t: Table, t1: Table, dt: U32, i: nat)
    requires Sized(t) && Sized(t1) && |t1.links| == |t.links| && i < |t.links| && t1.pendingAdd && t.pendingAdd
    requires FirstFreeFrom(t1.inUse, 0).Some? && t1.pending == t.pending
    requires forall j :: 0 <= j < |t.links| ==> (t1.inUse[j] <==> Stays(t, j, dt))
    requires if Stays(t, i, dt) then Kept(t, t1, i, dt) else Freed(t, t1, i)
    ensures var t' := AddPending(t1);
      if TakesPending(t, i, dt) then t'.inUse[i] && t'.links[i] == t.pending && t'.nv[i] == Some(t.pending)
      else if Stays(t, i, dt) then Kept(t, t', i, dt) else Freed(t, t', i)
  {
    hide Stays;
    var f := FirstFreeFrom(t1.inUse, 0).value;
    assert TakesPending(t, i, dt) <==> i == f;
  }

  lemma ClearedSlot(t: Table, t1: Table, t2: Table, dt: U32, i: nat)
    requires Sized(t) && Sized(t1) && Sized(t2) && |t2.links| == |t1.links| == |t.links| && i < |t.links|
    requires if Stays(t, i, dt) then Kept(t, t1, i, dt) else Freed(t, t1, i)
    requires Freed(t1, t2, i)
    ensures Freed(t, t2.(pendingClear := false), i)
  {
  }

  /** After clear_all_links() the next process() erases every link; a queued one goes in first and all go with the call after. */
  lemma ClearAllMeaning(t: Table, dt: U32, i: nat)
    requires Inv(t) && i < |t.links|
    ensures var t1 := Process(ClearAllLinks(t), dt);
      && Inv(ClearAllLinks(t)) && Sized(t1) && |t1.links| == |t.links|
      && (!t.pendingAdd ==> Freed(t, t1, i) && !t1.pendingClear)
      && (t.pendingAdd ==> t1.pendingClear && !t1.pendingAdd)
  {
    var asked := ClearAllLinks(t);
    assert Inv(asked) by { hide CountTrue, FindFrom; }
    ProcessMeaning(asked, dt, i);
    hide Inv, Process;
  }

  /** A queued link that finds no free slot is dropped, and nothing else changes. */
  lemma NoRoomForPending(t: Table)
    requires Sized(t) && Full(t)
    ensures AddPending(t) == t.(pendingAdd := false, pending := ZERO_LINK)
  {
  }

  // ---------------------------------------------------------------- idle links

  /** Calls of process() with nothing else happening. */
  function Waited(t: Table, dts: seq<U32>): (r: Table)
    requires Inv(t)
    ensures Inv(r) && |r.links| == |t.links|
  {
    if dts == [] then t
    else
      var before := Waited(t, dts[..|dts| - 1]);
      ProcessInv(before, dts[|dts| - 1]);
      ProcessMeaning(before, dts[|dts| - 1], 0);
      Process(before, dts[|dts| - 1])
  }

  /** Slot i after idling for so long since its link in t was active. */
  ghost predicate IdleFor(t: Table, t': Table, i: nat, idle: nat)
    requires Sized(t) && i < |t.links|
  {
    && Sized(t') && |t'.links| == |t.links| && !t'.pendingAdd && !t'.pendingClear
    && (t'.inUse[i] <==> idle <= 90 * 24 * 3600)
    && (t'.inUse[i] ==> t'.links[i].id == t.links[i].id && t'.links[i].key == t.links[i].key && t'.links[i].sinceActive == idle)
    && (!t'.inUse[i] ==> t'.links[i] == ZERO_LINK && t'.nv[i] == Some(ZERO_LINK))
  }

  /**
   * A link nobody uses is dropped, in RAM and in nonvolatile memory, once more than 90 days have passed and not
   * before, however process() is called, as long as no one call has so many seconds that the sum wraps.
   */
  lemma {:induction false} IdleLinkIsDropped(t: Table, dts: seq<U32>, i: nat)
    requires Inv(t) && i < |t.links| && t.inUse[i] && t.links[i].sinceActive <= LINK_TIMEOUT_SECONDS
    requires !t.pendingAdd && !t.pendingClear
    requires forall k :: 0 <= k < |dts| ==> dts[k] <= UINT32_MAX - LINK_TIMEOUT_SECONDS
    ensures IdleFor(t, Waited(t, dts), i, t.links[i].sinceActive + Total(dts))
  {
    hide Inv, Waited, Process;
    InvSized(t);
    if dts == [] {
      assert Waited(t, dts) == t by { NoneWaited(t); }
    } else {
      var n := |dts| - 1;
      IdleLinkIsDropped(t, dts[..n], i);
      hide IdleFor;
      IdleStep(t, Waited(t, dts[..n]), dts[n], i, t.links[i].sinceActive + Total(dts[..n]));
      WaitedOneMore(t, dts);
    }
  }

  lemma NoneWaited(t: Table)
    requires Inv(t)
    ensures Waited(t, []) == t
  {
  }

  lemma WaitedOneMore(t: Table, dts: seq<U32>)
    requires Inv(t) && dts != []
    ensures Inv(Waited(t, dts[..|dts| - 1])) && Waited(t, dts) == Process(Waited(t, dts[..|dts| - 1]), dts[|dts| - 1])
  {
    hide Inv, Process;
  }

  lemma IdleStep(t: Table, t': Table, dt: U32, i: nat, idle: nat)
    requires Sized(t) && i < |t.links| && Inv(t') && IdleFor(t, t', i, idle) && dt <= UINT32_MAX - LINK_TIMEOUT_SECONDS
    ensures IdleFor(t, Process(t', dt), i, idle + dt)
  {
    hide Inv, Process;
    ProcessMeaning(t', dt, i);
  }

  /** One call with enough seconds to wrap the sum lets an idle link stay. */
  lemma LongCallKeepsLink(t: Table, i: nat)
    requires Inv(t) && i < |t.links| && t.inUse[i] && t.links[i].sinceActive == 1 && !t.pendingAdd && !t.pendingClear
    ensures Process(t, UINT32_MAX).inUse[i] && Process(t, UINT32_MAX).links[i].sinceActive == 0
  {
    ProcessMeaning(t, UINT32_MAX, i);
    hide Inv, Process;
  }
}
