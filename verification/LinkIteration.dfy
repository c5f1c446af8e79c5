/** Walking the linked accessories in slot order, wrapping at the end of the table. */
module LinkIteration {
  import opened Prelude
  import opened Links

  /** The walk visits used slots in which this device is not the accessory. */
  predicate Serving(t: Table, i: nat)
    requires i < |t.links| == |t.inUse|
  {
    t.inUse[i] && t.links[i].mode != Accessory
  }

  /** accessory_link_count(), which counts only links in the controller role. */
  function AccessoryCount(t: Table, n: nat): (c: nat)
    requires n <= |t.links| == |t.inUse|
    ensures c <= n
  {
    if n == 0 then 0
    else AccessoryCount(t, n - 1) + if t.inUse[n - 1] && t.links[n - 1].mode == Controller then 1 else 0
  }

  function FirstServing(t: Table, lo: nat, hi: nat): (r: Option<nat>)
    requires lo <= hi <= |t.links| == |t.inUse|
    ensures r.Some? ==> lo <= r.value < hi && Serving(t, r.value) && forall j :: lo <= j < r.value ==> !Serving(t, j)
    ensures r.None? ==> forall j :: lo <= j < hi ==> !Serving(t, j)
    decreases hi - lo
  {
    if lo == hi then None else if Serving(t, lo) then Some(lo) else FirstServing(t, lo + 1, hi)
  }

  /** The slot after p, going round, but never p itself. */
  function NextServing(t: Table, p: nat): (r: Option<nat>)
    requires p < |t.links| == |t.inUse|
  {
    var after := FirstServing(t, p + 1, |t.links|);
    if after.Some? then after else FirstServing(t, 0, p)
  }

  /** What is left of that search at step i of a loop that counts on past the last slot. */
  function Remaining(t: Table, p: nat, i: nat): (r: Option<nat>)
    requires p < |t.links| == |t.inUse| && p < i <= p + |t.links|
  {
    if i >= |t.links| then FirstServing(t, i - |t.links|, p)
    else
      var after := FirstServing(t, i, |t.links|);
      if after.Some? then after else FirstServing(t, 0, p)
  }

  lemma RemainingStep(t: Table, p: nat, i: nat)
    requires p < |t.links| == |t.inUse| && p < i <= p + |t.links|
    ensures Remaining(t, p, p + 1) == NextServing(t, p)
    ensures var slot := if i < |t.links| then i else i - |t.links|;
      Remaining(t, p, i) ==
        if i == p + |t.links| then None else if Serving(t, slot) then Some(slot) else Remaining(t, p, i + 1)
  {
  }

  function IdAt(t: Table, i: Option<nat>): (r: Option<NxId>)
    requires i.Some? ==> i.value < |t.links|
  {
    if i.Some? then Some(t.links[i.value].id) else None
  }

  /** next_linked_accessory(); no previous id, or a single linked accessory, gives the first one. */
  function NextAccessory(t: Table, previous: Option<NxId>): (r: Option<NxId>)
    requires |t.links| == |t.inUse|
  {
    if previous.None? || AccessoryCount(t, |t.links|) == 1 then IdAt(t, FirstServing(t, 0, |t.links|))
    else
      var at := Find(t, previous.value);
      if at.None? then None else IdAt(t, NextServing(t, at.value))
  }

  // ---------------------------------------------------------------- the walk is one cycle

  function ServingSlots(t: Table, n: nat): (s: seq<nat>)
    requires n <= |t.links| == |t.inUse|
    ensures forall k :: 0 <= k < |s| ==> s[k] < n
  {
    if n == 0 then []
    else if Serving(t, n - 1) then ServingSlots(t, n - 1) + [n - 1]
    else ServingSlots(t, n - 1)
  }

  /** s lists the slots below n that serve, in order. */
  ghost predicate Lists(t: Table, n: nat, s: seq<nat>)
    requires n <= |t.links| == |t.inUse|
  {
    && (forall k :: 0 <= k < |s| ==> s[k] < n && Serving(t, s[k]))
    && (forall k, l :: 0 <= k < l < |s| ==> s[k] < s[l])
    && (forall i :: 0 <= i < n && Serving(t, i) ==> i in s)
  }

  lemma OneMoreListed(t: Table, n: nat, s: seq<nat>)
    requires n < |t.links| == |t.inUse| && Lists(t, n, s)
    ensures Lists(t, n + 1, if Serving(t, n) then s + [n] else s)
  {
    hide Serving;
    var r := if Serving(t, n) then s + [n] else s;
    forall i | 0 <= i < n + 1 && Serving(t, i) ensures i in r {
      if i < n {
        assert i in s;
      } else {
        assert r[|s|] == n;
      }
    }
  }

  lemma {:induction false} ServingSlotsAre(t: Table, n: nat)
    requires n <= |t.links| == |t.inUse|
    ensures Lists(t, n, ServingSlots(t, n))
  {
    hide Lists, Serving;
    if n == 0 {
      NoneListed(t);
    } else {
      ServingSlotsAre(t, n - 1);
      OneMoreListed(t, n - 1, ServingSlots(t, n - 1));
    }
  }

  lemma NoneListed(t: Table)
    requires |t.links| == |t.inUse|
    ensures Lists(t, 0, [])
  {
  }

  /** The ids of the linked accessories in slot order. */
  function LinkedAccessories(t: Table): (r: seq<NxId>)
    requires |t.links| == |t.inUse|
  {
    var s := ServingSlots(t, |t.links|);
    seq(|s|, k requires 0 <= k < |s| => t.links[s[k]].id)
  }

  /** The ids are those of ever higher slots s. */
  ghost predicate BySlot(t: Table, s: seq<nat>, ids: seq<NxId>) {
    && |s| == |ids| && (forall k, l :: 0 <= k < l < |s| ==> s[k] < s[l])
    && forall k :: 0 <= k < |s| ==> s[k] < |t.links| && ids[k] == t.links[s[k]].id
  }

  /** They are the ids of exactly the used links in which this device is not the accessory, by slot. */
  lemma LinkedAccessoriesMeaning(t: Table, id: NxId)
    requires |t.links| == |t.inUse|
    ensures id in LinkedAccessories(t) <==>
      exists i :: 0 <= i < |t.links| && t.inUse[i] && t.links[i].mode != Accessory && t.links[i].id == id
    ensures exists s: seq<nat> :: BySlot(t, s, LinkedAccessories(t))
  {
    var s := ServingSlots(t, |t.links|);
    ServingSlotsAre(t, |t.links|);
    hide ServingSlots;
    if i :| 0 <= i < |t.links| && t.inUse[i] && t.links[i].mode != Accessory && t.links[i].id == id {
      assert Serving(t, i) && i in s;
      var k :| 0 <= k < |s| && s[k] == i;
      assert LinkedAccessories(t)[k] == id;
    }
    assert BySlot(t, s, LinkedAccessories(t));
  }

  /** The count leaves out links in a dual-mode role, which the walk visits. */
  lemma {:induction false} CountAtMostLength(t: Table, n: nat)
    requires n <= |t.links| == |t.inUse|
    ensures AccessoryCount(t, n) <= |ServingSlots(t, n)|
  {
    if n > 0 { CountAtMostLength(t, n - 1); }
  }

  /** The two roles the handshake asks for. */
  predicate PlainMode(mode: OperatingMode) {
    mode == Accessory || mode == Controller
  }

  ghost predicate PlainRoles(t: Table) {
    |t.links| == |t.inUse| && forall i :: 0 <= i < |t.links| && t.inUse[i] ==> PlainMode(t.links[i].mode)
  }

  lemma {:induction false} CountIsLength(t: Table, n: nat)
    requires PlainRoles(t) && n <= |t.links|
    ensures AccessoryCount(t, n) == |ServingSlots(t, n)|
  {
    if n > 0 { CountIsLength(t, n - 1); }
  }

  lemma FirstServingIs(t: Table, lo: nat, hi: nat, k: nat)
    requires lo <= hi <= |t.links| == |t.inUse|
    requires var s := ServingSlots(t, |t.links|);
      k < |s| && lo <= s[k] < hi && (k > 0 ==> s[k - 1] < lo)
    ensures FirstServing(t, lo, hi) == Some(ServingSlots(t, |t.links|)[k])
  {
    ServingSlotsAre(t, |t.links|);
    hide ServingSlots, FirstServing, Serving;
  }

  lemma NoneServingAfterLast(t: Table, k: nat)
    requires |t.links| == |t.inUse| && ServingSlots(t, |t.links|) != [] && k == |ServingSlots(t, |t.links|)| - 1
    ensures FirstServing(t, ServingSlots(t, |t.links|)[k] + 1, |t.links|).None?
  {
    ServingSlotsAre(t, |t.links|);
    hide ServingSlots, FirstServing, Serving;
  }

  function Successor(k: nat, n: nat): (r: nat) {
    if k + 1 < n then k + 1 else 0
  }

  lemma WrapsOnce(i: nat, n: nat)
    requires 0 < n && i < 2 * n
    ensures i % n == if i < n then i else i - n
  {
    if i >= n {
      assert i == n + (i - n);
    }
  }

  lemma NextServingIsCyclic(t: Table, k: nat)
    requires |t.links| == |t.inUse| && k < |ServingSlots(t, |t.links|)| && |ServingSlots(t, |t.links|)| > 1
    ensures var s := ServingSlots(t, |t.links|); NextServing(t, s[k]) == Some(s[Successor(k, |s|)])
  {
    var s := ServingSlots(t, |t.links|);
    ServingSlotsAre(t, |t.links|);
    hide ServingSlots, FirstServing, Serving;
    if k + 1 < |s| {
      FirstServingIs(t, s[k] + 1, |t.links|, k + 1);
    } else {
      NoneServingAfterLast(t, k);
      FirstServingIs(t, 0, s[k], 0);
    }
  }

  lemma FoundInItsSlot(t: Table, i: nat)
    requires Inv(t) && i < |t.links| && t.inUse[i]
    ensures Find(t, t.links[i].id) == Some(i)
  {
  }

  lemma LoneServing(t: Table)
    requires |t.links| == |t.inUse| && |ServingSlots(t, |t.links|)| == 1
    ensures NextServing(t, ServingSlots(t, |t.links|)[0]).None?
  {
    NoneServingAfterLast(t, 0);
    ServingSlotsAre(t, |t.links|);
    hide ServingSlots, FirstServing, Serving;
  }

  lemma ServingIsInUse(t: Table, k: nat)
    requires |t.links| == |t.inUse| && k < |ServingSlots(t, |t.links|)|
    ensures t.inUse[ServingSlots(t, |t.links|)[k]]
  {
    ServingSlotsAre(t, |t.links|);
    assert Serving(t, ServingSlots(t, |t.links|)[k]);
    hide ServingSlots;
  }

  /** Where the walk goes from the k-th accessory, whatever the roles. */
  lemma NextIs(t: Table, k: nat)
    requires Inv(t) && k < |LinkedAccessories(t)|
    ensures var a := LinkedAccessories(t);
      NextAccessory(t, Some(a[k])) ==
        if AccessoryCount(t, |t.links|) == 1 then Some(a[0])
        else if |a| == 1 then None
        else Some(a[Successor(k, |a|)])
  {
    var s := ServingSlots(t, |t.links|);
    hide ServingSlots, FirstServing, Serving;
    if AccessoryCount(t, |t.links|) == 1 {
      FirstServingIs(t, 0, |t.links|, 0);
    } else {
      ServingIsInUse(t, k);
      FoundInItsSlot(t, s[k]);
      hide Inv, Find, FirstServing, NextServing, AccessoryCount;
      if |s| > 1 {
        NextServingIsCyclic(t, k);
      } else {
        LoneServing(t);
      }
    }
  }

  /**
   * From each accessory the walk goes to the next one, and from the last to the first, exactly when the count
   * is one just for a single accessory; so always when no link has a dual-mode role.
   */
  lemma NextIsCyclicIff(t: Table)
    requires Inv(t) && LinkedAccessories(t) != []
    ensures var a := LinkedAccessories(t);
      && ((forall k :: 0 <= k < |a| ==> NextAccessory(t, Some(a[k])) == Some(a[Successor(k, |a|)]))
            <==> (AccessoryCount(t, |t.links|) == 1 <==> |a| == 1))
      && (PlainRoles(t) ==> AccessoryCount(t, |t.links|) == |a|)
  {
    var a := LinkedAccessories(t);
    forall k | 0 <= k < |a|
      ensures NextAccessory(t, Some(a[k])) ==
        if AccessoryCount(t, |t.links|) == 1 then Some(a[0]) else if |a| == 1 then None else Some(a[Successor(k, |a|)])
    {
      NextIs(t, k);
    }
    AccessoriesDistinct(t);
    if PlainRoles(t) { CountIsLength(t, |t.links|); }
    hide Inv, NextAccessory, LinkedAccessories;
    assert |a| > 1 ==> a[0] != a[Successor(0, |a|)];
  }

  lemma NothingServes(t: Table)
    requires |t.links| == |t.inUse| && ServingSlots(t, |t.links|) == []
    ensures FirstServing(t, 0, |t.links|).None?
  {
    ServingSlotsAre(t, |t.links|);
    hide ServingSlots, FirstServing, Serving;
  }

  /** The walk starts at the first accessory and finds nothing only when none is linked. */
  lemma NextStarts(t: Table)
    requires |t.links| == |t.inUse|
    ensures var a := LinkedAccessories(t); NextAccessory(t, None) == if a == [] then None else Some(a[0])
  {
    var s := ServingSlots(t, |t.links|);
    hide ServingSlots, FirstServing, Serving, AccessoryCount;
    if s != [] {
      FirstServingIs(t, 0, |t.links|, 0);
    } else {
      NothingServes(t);
    }
  }

  lemma AccessoriesDistinct(t: Table)
    requires Inv(t)
    ensures var a := LinkedAccessories(t); forall i, j :: 0 <= i < j < |a| ==> a[i] != a[j]
  {
    var s, a := ServingSlots(t, |t.links|), LinkedAccessories(t);
    ServingSlotsAre(t, |t.links|);
    forall i, j | 0 <= i < j < |a| ensures a[i] != a[j] {
      assert s[i] < s[j];
      ServingIsInUse(t, i);
      ServingIsInUse(t, j);
    }
  }

  /** An id that is not linked has no successor, as documented, exactly when the count is not one. */
  lemma UnlinkedHasNoNext(t: Table, id: NxId)
    requires Inv(t) && Find(t, id).None?
    ensures NextAccessory(t, Some(id)).None? <==> AccessoryCount(t, |t.links|) != 1
  {
    CountAtMostLength(t, |t.links|);
    NextStarts(t);
  }

  /** What a walk from the first accessory lists until it ends or is back there. */
  function Walked(t: Table): (ids: seq<NxId>)
    requires |t.links| == |t.inUse|
  {
    var a := LinkedAccessories(t);
    if AccessoryCount(t, |t.links|) == 1 && |a| > 1 then a[..1] else a
  }

  /** The walk lists every linked accessory exactly when the count is not one for several. */
  lemma WalkListsAllIff(t: Table)
    requires Inv(t)
    ensures Walked(t) == LinkedAccessories(t) <==> AccessoryCount(t, |t.links|) != 1 || |LinkedAccessories(t)| == 1
    ensures PlainRoles(t) ==> Walked(t) == LinkedAccessories(t)
  {
    CountAtMostLength(t, |t.links|);
    if PlainRoles(t) { CountIsLength(t, |t.links|); }
    hide LinkedAccessories, AccessoryCount, Inv;
  }
}
