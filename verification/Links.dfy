/**
 * The link table as a value: slots in RAM, their copies in nonvolatile memory, and what each
 * operation of the link manager does to them.
 */
module Links {
  import opened Prelude

  datatype NxId = NxId(authorityId: U16, deviceId: U32)

  /** The role of this device on the link; Accessory is 0 in memory. */
  datatype OperatingMode = Accessory | Controller | DualModeActive | DualModeIdle

  datatype Link = Link(
    id: NxId, mode: OperatingMode, securityMode: U8, sinceInit: U32, sinceActive: U32, key: Key, nonce: U32)

  const ZERO_LINK := Link(NxId(0, 0), Accessory, 0, 0, 0, ZERO_KEY, 0)

  /** NEXUS_CHANNEL_LINK_SECURITY_MODE_KEY128SYM_COSE_MAC0_AUTH_SIPHASH24 */
  const COSE_MAC0_SIPHASH: U8 := 0
  const LINK_TIMEOUT_SECONDS: U32 := 7776000
  /** How far a nonce may run ahead of its nonvolatile copy. */
  const NONCE_INTERVAL: U32 := 64

  datatype Table = Table(
    links: seq<Link>, inUse: seq<bool>, persist: seq<bool>, nv: seq<Option<Link>>,
    count: U8, pendingAdd: bool, pending: Link, pendingClear: bool)

  ghost predicate Sized(t: Table) {
    |t.links| == |t.inUse| == |t.persist| == |t.nv| && 1 <= |t.links| <= 10
  }

  // ---------------------------------------------------------------- lookups

  function FindFrom(t: Table, id: NxId, i: nat): (r: Option<nat>)
    requires |t.links| == |t.inUse| && i <= |t.links|
    ensures r.Some? ==> i <= r.value < |t.links| && t.inUse[r.value] && t.links[r.value].id == id
    ensures r.Some? ==> forall j :: i <= j < r.value && t.inUse[j] ==> t.links[j].id != id
    ensures r.None? ==> forall j :: i <= j < |t.links| && t.inUse[j] ==> t.links[j].id != id
    decreases |t.links| - i
  {
    if i == |t.links| then None
    else if t.inUse[i] && t.links[i].id == id then Some(i)
    else FindFrom(t, id, i + 1)
  }

  function Find(t: Table, id: NxId): (r: Option<nat>)
    requires |t.links| == |t.inUse|
  {
    FindFrom(t, id, 0)
  }

  function FirstFreeFrom(inUse: seq<bool>, i: nat): (r: Option<nat>)
    requires i <= |inUse|
    ensures r.Some? ==> i <= r.value < |inUse| && !inUse[r.value] && forall j :: i <= j < r.value ==> inUse[j]
    ensures r.None? ==> forall j :: i <= j < |inUse| ==> inUse[j]
    decreases |inUse| - i
  {
    if i == |inUse| then None else if !inUse[i] then Some(i) else FirstFreeFrom(inUse, i + 1)
  }

  ghost predicate IsAccessoryLink(t: Table, i: int) {
    0 <= i < |t.links| == |t.inUse| && t.inUse[i] && t.links[i].mode == Accessory
  }

  /** The link to evict: the longest established one in the accessory role, the last of equals. */
  function OldestAccessory(t: Table, n: nat): (r: Option<nat>)
    requires |t.links| == |t.inUse| && n <= |t.links|
    ensures r.None? ==> forall j :: 0 <= j < n ==> !IsAccessoryLink(t, j)
    ensures r.Some? ==> r.value < n && IsAccessoryLink(t, r.value)
    ensures r.Some? ==> forall j :: 0 <= j < n && IsAccessoryLink(t, j) ==> t.links[j].sinceInit <= t.links[r.value].sinceInit
    ensures r.Some? ==> forall j :: r.value < j < n && IsAccessoryLink(t, j) ==> t.links[j].sinceInit < t.links[r.value].sinceInit
  {
    if n == 0 then None
    else
      var best := OldestAccessory(t, n - 1);
      var i := n - 1;
      if t.links[i].mode == Accessory && t.inUse[i]
         && t.links[i].sinceInit >= (if best.Some? then t.links[best.value].sinceInit else 0)
      then Some(i) else best
  }

  // ---------------------------------------------------------------- operations

  function ClearSlot(t: Table, i: nat): (r: Table)
    requires Sized(t) && i < |t.links|
  {
    if !t.inUse[i] then t
    else t.(links := t.links[i := ZERO_LINK], inUse := t.inUse[i := false],
            nv := t.nv[i := Some(ZERO_LINK)], count := (t.count + 0xFF) % 0x100)
  }

  function Aged(l: Link, dt: U32): (r: Link) {
    l.(sinceInit := Add32(l.sinceInit, dt), sinceActive := Add32(l.sinceActive, dt))
  }

  /** One slot of process(): age, time out, or write a flagged link back. */
  function TickSlot(t: Table, i: nat, dt: U32): (r: Table)
    requires Sized(t) && i < |t.links|
    ensures Sized(r) && |r.links| == |t.links|
  {
    if !t.inUse[i] then t
    else
      var l := Aged(t.links[i], dt);
      var t1 := t.(links := t.links[i := l]);
      if l.sinceActive > LINK_TIMEOUT_SECONDS then ClearSlot(t1, i)
      else if l.securityMode == COSE_MAC0_SIPHASH && t.persist[i] then
        t1.(nv := t.nv[i := Some(l)], persist := t.persist[i := false])
      else t1
  }

  function Tick(t: Table, n: nat, dt: U32): (r: Table)
    requires Sized(t) && n <= |t.links|
    ensures Sized(r) && |r.links| == |t.links|
  {
    if n == 0 then t else TickSlot(Tick(t, n - 1, dt), n - 1, dt)
  }

  /** The queued link goes into the first free slot and straight to nonvolatile memory. */
  function AddPending(t: Table): (r: Table)
    requires Sized(t)
  {
    var free := FirstFreeFrom(t.inUse, 0);
    if free.None? then t.(pending := ZERO_LINK, pendingAdd := false) else Occupy(t, free.value)
  }

  function Occupy(t: Table, i: nat): (r: Table)
    requires Sized(t) && i < |t.links|
  {
    t.(links := t.links[i := t.pending], inUse := t.inUse[i := true], nv := t.nv[i := Some(t.pending)],
       count := (t.count + 1) % 0x100, pending := ZERO_LINK, pendingAdd := false)
  }

  function ClearSlots(t: Table, n: nat): (r: Table)
    requires Sized(t) && n <= |t.links|
    ensures Sized(r) && |r.links| == |t.links|
  {
    if n == 0 then t else ClearSlot(ClearSlots(t, n - 1), n - 1)
  }

  function Process(t: Table, dt: U32): (r: Table)
    requires Sized(t)
  {
    var t1 := Tick(t, |t.links|, dt);
    if t1.pendingAdd then AddPending(t1)
    else if t1.pendingClear then ClearSlots(t1, |t1.links|).(pendingClear := false)
    else t1
  }

  /** Make room for a link to id: drop the old link to it, or evict; None when there is no room. */
  function MakeRoom(t: Table, id: NxId, mode: OperatingMode): (r: Option<Table>)
    requires Sized(t)
  {
    var known := Find(t, id);
    if known.Some? then Some(ClearSlot(t, known.value))
    else if t.count != |t.links| then Some(t)
    else if mode != Accessory then None
    else
      var oldest := OldestAccessory(t, |t.links|);
      if oldest.None? then None else Some(ClearSlot(t, oldest.value))
  }

  /** create_link(): queues the link for the next process() and says whether it did. */
  function CreateLink(t: Table, id: NxId, mode: OperatingMode, securityMode: U8, key: Key, nonce: U32): (r: (Table, bool))
    requires Sized(t)
  {
    if t.pendingAdd then (t, false)
    else
      var room := MakeRoom(t, id, mode);
      if room.None? then (t, false)
      else (room.value.(pendingAdd := true, pending := Link(id, mode, securityMode, 0, 0, key, nonce)), true)
  }

  function ClearAllLinks(t: Table): (r: Table) {
    t.(pendingClear := true)
  }

  /** Whether the loop over old+1 .. new meets a multiple of the storage interval. */
  predicate CrossesInterval(old_: U32, new_: U32) {
    new_ / NONCE_INTERVAL > old_ / NONCE_INTERVAL || new_ == UINT32_MAX
  }

  predicate FlagsPersist(old_: U32, new_: U32) {
    new_ == 0 || (new_ > old_ > 0 && CrossesInterval(old_, new_))
  }

  function SetNonce(t: Table, id: NxId, nonce: U32): (r: (Table, bool))
    requires Sized(t)
  {
    var at := Find(t, id);
    if at.None? || t.links[at.value].securityMode != COSE_MAC0_SIPHASH then (t, false)
    else
      var i := at.value;
      (t.(persist := t.persist[i := t.persist[i] || FlagsPersist(t.links[i].nonce, nonce)],
          links := t.links[i := t.links[i].(nonce := nonce)]), true)
  }

  function ResetSecsSinceActive(t: Table, id: NxId): (r: Table)
    requires Sized(t)
  {
    var at := Find(t, id);
    if at.None? then t else t.(links := t.links[at.value := t.links[at.value].(sinceActive := 0)])
  }

  /** What init() makes of one nonvolatile block. */
  function Loaded(block: Option<Link>): (r: Option<Link>) {
    if block.None? || block.value.id.deviceId == 0 then None
    else Some(block.value.(nonce := Add32(block.value.nonce, NONCE_INTERVAL)))
  }

  function LoadedCount(nv: seq<Option<Link>>, n: nat): (c: nat)
    requires n <= |nv|
    ensures c <= n
  {
    if n == 0 then 0 else LoadedCount(nv, n - 1) + if Loaded(nv[n - 1]).Some? then 1 else 0
  }

  /** init(): RAM is rebuilt from nonvolatile memory with every nonce moved one interval on. */
  function Init(nv: seq<Option<Link>>): (r: Table)
    requires |nv| <= 10
  {
    Table(seq(|nv|, i requires 0 <= i < |nv| => if Loaded(nv[i]).Some? then Loaded(nv[i]).value else ZERO_LINK),
          seq(|nv|, i requires 0 <= i < |nv| => Loaded(nv[i]).Some?),
          seq(|nv|, i requires 0 <= i < |nv| => Loaded(nv[i]).Some?),
          nv, LoadedCount(nv, |nv|), false, ZERO_LINK, false)
  }

  lemma InitParts(nv: seq<Option<Link>>)
    requires |nv| <= 10
    ensures var t := Init(nv);
      && t == Table(t.links, t.inUse, t.persist, nv, LoadedCount(nv, |nv|), false, ZERO_LINK, false)
      && |t.links| == |t.inUse| == |t.persist| == |nv|
      && forall i :: 0 <= i < |nv| ==>
        && t.links[i] == (if Loaded(nv[i]).Some? then Loaded(nv[i]).value else ZERO_LINK)
        && t.inUse[i] == t.persist[i] == Loaded(nv[i]).Some?
  {
  }

  /** The table once init() has looked at the first n blocks. */
  function LoadedUpTo(nv: seq<Option<Link>>, n: nat): (r: Table)
    requires n <= |nv| <= 10
  {
    Table(seq(|nv|, i requires 0 <= i < |nv| => if i < n && Loaded(nv[i]).Some? then Loaded(nv[i]).value else ZERO_LINK),
          seq(|nv|, i requires 0 <= i < |nv| => i < n && Loaded(nv[i]).Some?),
          seq(|nv|, i requires 0 <= i < |nv| => i < n && Loaded(nv[i]).Some?),
          nv, LoadedCount(nv, n), false, ZERO_LINK, false)
  }

  function LoadSlot(t: Table, i: nat): (r: Table)
    requires Sized(t) && i < |t.links|
  {
    var l := Loaded(t.nv[i]);
    if l.None? then t
    else t.(links := t.links[i := l.value], inUse := t.inUse[i := true], persist := t.persist[i := true], count := (t.count + 1) % 0x100)
  }

  lemma LoadedOneMore(nv: seq<Option<Link>>, n: nat)
    requires 1 <= |nv| <= 10 && n < |nv|
    ensures LoadedUpTo(nv, n + 1) == LoadSlot(LoadedUpTo(nv, n), n)
  {
    var t, r := LoadSlot(LoadedUpTo(nv, n), n), LoadedUpTo(nv, n + 1);
    hide Loaded;
    assert t.links == r.links;
    assert t.inUse == r.inUse;
    assert t.persist == r.persist;
  }

  lemma LoadedAll(nv: seq<Option<Link>>)
    requires |nv| <= 10
    ensures LoadedUpTo(nv, |nv|) == Init(nv)
  {
    hide Loaded;
  }

  // ---------------------------------------------------------------- the table invariant

  function CountTrue(s: seq<bool>): (c: nat)
    ensures c <= |s|
  {
    if s == [] then 0 else CountTrue(s[..|s| - 1]) + if s[|s| - 1] then 1 else 0
  }

  /** What must survive a restart: everything except nonce and timers. */
  predicate SameLink(a: Link, b: Link) {
    a.id == b.id && a.mode == b.mode && a.securityMode == b.securityMode && a.key == b.key
  }

  /** A used slot has its link in nonvolatile memory; the block of a free slot is not a link. */
  predicate Mirrored(link: Link, used: bool, block: Option<Link>) {
    if used then block.Some? && SameLink(block.value, link) else block.None? || block.value.id.deviceId == 0
  }

  ghost predicate Inv(t: Table) {
    && Sized(t)
    && t.count == CountTrue(t.inUse)
    && (forall i, j :: 0 <= i < j < |t.links| && t.inUse[i] && t.inUse[j] ==> t.links[i].id != t.links[j].id)
    && (forall i :: 0 <= i < |t.links| && !t.inUse[i] ==> t.links[i] == ZERO_LINK)
    && (forall i :: 0 <= i < |t.links| ==> Mirrored(t.links[i], t.inUse[i], t.nv[i]))
    && (t.pendingAdd ==> t.count < |t.links| && Find(t, t.pending.id).None?)
    && (!t.pendingAdd ==> t.pending == ZERO_LINK)
  }

  lemma {:induction false} CountUpdate(s: seq<bool>, i: nat, b: bool)
    requires i < |s|
    ensures CountTrue(s[i := b]) == CountTrue(s) - (if s[i] then 1 else 0) + (if b then 1 else 0)
  {
    var n := |s| - 1;
    if i < n {
      assert s[i := b][..n] == s[..n][i := b];
      CountUpdate(s[..n], i, b);
    } else {
      assert s[i := b][..n] == s[..n];
    }
  }

  lemma {:induction false} NotFullHasFree(s: seq<bool>)
    ensures CountTrue(s) == |s| <==> forall i :: 0 <= i < |s| ==> s[i]
  {
    if s != [] {
      NotFullHasFree(s[..|s| - 1]);
    }
  }

  lemma ClearSlotInv(t: Table, i: nat)
    requires Inv(t) && i < |t.links|
    ensures Inv(ClearSlot(t, i)) && !ClearSlot(t, i).inUse[i]
    ensures t.inUse[i] ==> ClearSlot(t, i).count == t.count - 1
    ensures ClearSlot(t, i).pendingAdd == t.pendingAdd && |ClearSlot(t, i).links| == |t.links|
  {
    hide CountTrue, FindFrom;
    if t.inUse[i] {
      CountUpdate(t.inUse, i, false);
    }
  }

  /** Changing only timers, nonce, flag or nonvolatile nonce of a used slot keeps the invariant. */
  lemma TouchSlotInv(t: Table, i: nat, l: Link, block: Link, flag: bool)
    requires Inv(t) && i < |t.links| && t.inUse[i] && SameLink(l, t.links[i]) && SameLink(block, l)
    ensures Inv(t.(links := t.links[i := l], nv := t.nv[i := Some(block)], persist := t.persist[i := flag]))
  {
  }

  lemma TickSlotInv(t: Table, i: nat, dt: U32)
    requires Inv(t) && i < |t.links|
    ensures Inv(TickSlot(t, i, dt))
  {
    if t.inUse[i] {
      hide CountTrue, FindFrom;
      var l := Aged(t.links[i], dt);
      var t1 := t.(links := t.links[i := l]);
      TouchSlotInv(t, i, l, t.nv[i].value, t.persist[i]);
      assert t1 == t.(links := t.links[i := l], nv := t.nv[i := Some(t.nv[i].value)], persist := t.persist[i := t.persist[i]]);
      TouchSlotInv(t, i, l, l, false);
      ClearSlotInv(t1, i);
    }
  }

  lemma InvSized(t: Table)
    requires Inv(t)
    ensures Sized(t)
  {
  }

  lemma {:induction false} TickInv(t: Table, n: nat, dt: U32)
    requires Inv(t) && n <= |t.links|
    ensures Inv(Tick(t, n, dt))
  {
    hide Inv, TickSlot;
    InvSized(t);
    if n > 0 {
      TickInv(t, n - 1, dt);
      TickSlotInv(Tick(t, n - 1, dt), n - 1, dt);
    }
  }

  lemma {:induction false} TickFlags(t: Table, n: nat, dt: U32)
    requires Sized(t) && n <= |t.links|
    ensures var r := Tick(t, n, dt);
      r.pendingClear == t.pendingClear && r.pendingAdd == t.pendingAdd && r.pending == t.pending
  {
    if n > 0 { TickFlags(t, n - 1, dt); }
  }

  lemma OccupyInv(t: Table, i: nat)
    requires Inv(t) && t.pendingAdd && i < |t.links| && !t.inUse[i]
    ensures Inv(Occupy(t, i)) && Occupy(t, i).count == t.count + 1
  {
    CountUpdate(t.inUse, i, true);
    var r := Occupy(t, i);
    hide CountTrue, FindFrom;
    forall j, k | 0 <= j < k < |r.links| && r.inUse[j] && r.inUse[k] ensures r.links[j].id != r.links[k].id {
      assert j != i ==> t.inUse[j] && t.links[j].id != t.pending.id;
      assert k != i ==> t.inUse[k] && t.links[k].id != t.pending.id;
    }
  }

  /** A queued link always finds a free slot. */
  lemma AddPendingInv(t: Table)
    requires Inv(t) && t.pendingAdd
    ensures Inv(AddPending(t)) && AddPending(t).count == t.count + 1 && Find(AddPending(t), t.pending.id).Some?
  {
    NotFullHasFree(t.inUse);
    var i := FirstFreeFrom(t.inUse, 0).value;
    OccupyInv(t, i);
    assert Occupy(t, i).inUse[i];
  }

  lemma {:induction false} ClearSlotsInv(t: Table, n: nat)
    requires Inv(t) && n <= |t.links|
    ensures Inv(ClearSlots(t, n)) && ClearSlots(t, n).pendingAdd == t.pendingAdd
  {
    if n > 0 {
      ClearSlotsInv(t, n - 1);
      assert Sized(ClearSlots(t, n - 1));
      hide Inv, ClearSlot;
      ClearSlotInv(ClearSlots(t, n - 1), n - 1);
    }
  }

  lemma {:induction false} ClearSlotsClears(t: Table, n: nat, i: nat)
    requires Sized(t) && i < n <= |t.links|
    ensures !ClearSlots(t, n).inUse[i]
  {
    if i < n - 1 {
      ClearSlotsClears(t, n - 1, i);
    }
  }

  lemma {:induction false} NoneUsedCount(s: seq<bool>)
    requires forall i :: 0 <= i < |s| ==> !s[i]
    ensures CountTrue(s) == 0
  {
    if s != [] { NoneUsedCount(s[..|s| - 1]); }
  }

  /** process() keeps the table invariant; the assertion that clearing leaves no link holds. */
  lemma ProcessInv(t: Table, dt: U32)
    requires Inv(t)
    ensures Inv(Process(t, dt)) && !Process(t, dt).pendingAdd
    ensures t.pendingClear && !t.pendingAdd ==> Process(t, dt).count == 0
  {
    var t1 := Tick(t, |t.links|, dt);
    TickInv(t, |t.links|, dt);
    TickFlags(t, |t.links|, dt);
    if t1.pendingAdd {
      AddPendingInv(t1);
    } else if t1.pendingClear {
      ClearSlotsInv(t1, |t1.links|);
      forall i | 0 <= i < |t1.links| ensures !ClearSlots(t1, |t1.links|).inUse[i] {
        ClearSlotsClears(t1, |t1.links|, i);
      }
      NoneUsedCount(ClearSlots(t1, |t1.links|).inUse);
    }
  }

  lemma MakeRoomInv(t: Table, id: NxId, mode: OperatingMode)
    requires Inv(t) && !t.pendingAdd
    ensures var r := MakeRoom(t, id, mode);
      r.Some? ==> Inv(r.value) && !r.value.pendingAdd && r.value.count < |t.links| && Find(r.value, id).None?
  {
    hide CountTrue, FindFrom, OldestAccessory;
    var known := Find(t, id);
    if known.Some? {
      ClearSlotInv(t, known.value);
    } else if t.count == |t.links| && mode == Accessory {
      var oldest := OldestAccessory(t, |t.links|);
      if oldest.Some? {
        ClearSlotInv(t, oldest.value);
      }
    }
  }

  lemma CreateLinkInv(t: Table, id: NxId, mode: OperatingMode, securityMode: U8, key: Key, nonce: U32)
    requires Inv(t)
    ensures Inv(CreateLink(t, id, mode, securityMode, key, nonce).0)
  {
    if !t.pendingAdd {
      MakeRoomInv(t, id, mode);
    }
  }

  lemma SetNonceInv(t: Table, id: NxId, nonce: U32)
    requires Inv(t)
    ensures Inv(SetNonce(t, id, nonce).0) && Inv(ResetSecsSinceActive(t, id))
  {
    var at := Find(t, id);
    if at.Some? {
      var i := at.value;
      var l, block := t.links[i], t.nv[i].value;
      TouchSlotInv(t, i, l.(nonce := nonce), block, t.persist[i] || FlagsPersist(l.nonce, nonce));
      TouchSlotInv(t, i, l.(sinceActive := 0), block, t.persist[i]);
      assert t.nv[i := Some(block)] == t.nv && t.persist[i := t.persist[i]] == t.persist;
    }
  }

  lemma {:induction false} LoadedCountIsCount(nv: seq<Option<Link>>, n: nat)
    requires n <= |nv| <= 10
    ensures LoadedCount(nv, n) == CountTrue(Init(nv).inUse[..n])
  {
    if n > 0 {
      LoadedCountIsCount(nv, n - 1);
      assert Init(nv).inUse[..n][..n - 1] == Init(nv).inUse[..n - 1];
    }
  }

  /** A restart brings back exactly the links whose device id is not zero, slot by slot. */
  lemma RebootRestores(t: Table)
    requires Inv(t)
    ensures Inv(Init(t.nv))
    ensures forall i :: 0 <= i < |t.links| ==>
      && (Init(t.nv).inUse[i] <==> t.inUse[i] && t.links[i].id.deviceId != 0)
      && (Init(t.nv).inUse[i] ==> SameLink(Init(t.nv).links[i], t.links[i]))
  {
    var r := Init(t.nv);
    InitParts(t.nv);
    LoadedCountIsCount(t.nv, |t.nv|);
    assert r.inUse[..|t.nv|] == r.inUse;
    hide CountTrue, FindFrom, LoadedCount, Init;
    forall i | 0 <= i < |t.links|
      ensures r.inUse[i] <==> t.inUse[i] && t.links[i].id.deviceId != 0
      ensures r.inUse[i] ==> SameLink(r.links[i], t.links[i])
    {
      assert Mirrored(t.links[i], t.inUse[i], t.nv[i]);
    }
  }

  lemma BlankMemoryInv(nv: seq<Option<Link>>)
    requires 1 <= |nv| <= 10 && forall i :: 0 <= i < |nv| ==> nv[i].None?
    ensures Inv(Init(nv))
  {
    LoadedCountIsCount(nv, |nv|);
    assert Init(nv).inUse[..|nv|] == Init(nv).inUse;
  }
}
