/** The PAYG credit resource as the device runs it, on top of the link manager. */
module PaygDevice {
  import opened Prelude
  import opened Links
  import LM = LinkManager
  import opened LinkIteration
  import opened PaygCredit

  /** After the k-th listed id comes the next one; after the last, none or the first again. */
  lemma NextListed(t: Table, k: nat)
    requires Inv(t) && k < |Walked(t)|
    ensures var ids := Walked(t);
      && k < |LinkedAccessories(t)| && LinkedAccessories(t)[k] == ids[k] && LinkedAccessories(t)[0] == ids[0]
      && if k + 1 < |ids| then NextAccessory(t, Some(ids[k])) == Some(ids[k + 1]) && ids[k + 1] != ids[0]
         else NextAccessory(t, Some(ids[k])) == None || NextAccessory(t, Some(ids[k])) == Some(ids[0])
  {
    NextIs(t, k);
    AccessoriesDistinct(t);
    CountAtMostLength(t, |t.links|);
  }

  class PaygResource {
    var remaining: U32
    var mode: CreditMode
    var followerModeSecondsSinceCreditUpdated: U32
    var lastPaygState: PaygState
    var lastUpdatedNexusId: NxId
    var secondsSinceLastPost: U32
    var cycleFirstNexusId: NxId
    var secondsSinceLastCycleStart: U32
    const linkManager: LM.LinkManager

    ghost function State(): (r: Payg)
      reads this
    {
      Payg(remaining, mode, followerModeSecondsSinceCreditUpdated, lastPaygState,
           lastUpdatedNexusId, secondsSinceLastPost, cycleFirstNexusId, secondsSinceLastCycleStart)
    }

    /** nexus_channel_res_payg_credit_init(), in a build with or without the controller role. */
    constructor (linkManager: LM.LinkManager, p: Product, controllers: bool)
      requires linkManager.Allocated()
      ensures this.linkManager == linkManager && State() == PaygCredit.Init(linkManager.State(), p, controllers)
    {
      this.linkManager := linkManager;
      remaining, mode, followerModeSecondsSinceCreditUpdated, lastPaygState := 0, Independent, 0, p.state;
      lastUpdatedNexusId, secondsSinceLastPost := NULL_ID, POST_SECONDS;
      cycleFirstNexusId, secondsSinceLastCycleStart := NULL_ID, CYCLE_SECONDS;
      new;
      mode := GetCreditOperatingMode();
      var storedRemaining := Latest(p);
      match mode {
        case Independent => remaining := if controllers || storedRemaining == UNLOCKED_CREDIT then storedRemaining else 0;
        case Following => remaining := if storedRemaining == UNLOCKED_CREDIT then storedRemaining else 0;
        case Relaying => remaining := storedRemaining;
        case Leading => remaining := storedRemaining;
      }
    }

    method HasLinkWithRole(role: OperatingMode) returns (found: bool)
      requires linkManager.Allocated()
      ensures found == HasRole(linkManager.State(), role, linkManager.links.Length)
    {
      found := false;
      for i := 0 to linkManager.links.Length
        invariant !HasRole(linkManager.State(), role, i)
      {
        if linkManager.linkIdxInUse[i] && linkManager.links[i].mode == role {
          return true;
        }
      }
    }

    method GetCreditOperatingMode() returns (m: CreditMode)
      requires linkManager.Allocated()
      ensures m == ModeOf(linkManager.State())
    {
      var hasController := HasLinkWithRole(Accessory);
      var hasAccessory := HasLinkWithRole(OperatingMode.Controller);
      if hasAccessory && hasController {
        m := Relaying;
      } else if hasAccessory {
        m := Leading;
      } else if hasController {
        m := Following;
      } else {
        m := Independent;
      }
    }

    /** The follower's part of process(). */
    method ProcessFollower(currentMode: CreditMode, secondsElapsed: U32) returns (minSleep: U32, erased: bool)
      modifies this
      ensures (State(), minSleep, erased) == Follow(old(State()), currentMode, secondsElapsed)
    {
      minSleep, erased := IDLE_SECONDS, false;
      if remaining != UNLOCKED_CREDIT {
        if currentMode == Following {
          followerModeSecondsSinceCreditUpdated := Add32(followerModeSecondsSinceCreditUpdated, secondsElapsed);
          if followerModeSecondsSinceCreditUpdated >= FOLLOWER_SECONDS {
            erased := true;
            remaining := 0;
            followerModeSecondsSinceCreditUpdated := 0;
          } else {
            minSleep := FOLLOWER_SECONDS - followerModeSecondsSinceCreditUpdated;
          }
        } else if currentMode == Independent && mode == Following {
          erased := true;
          remaining := 0;
        }
      }
      mode := currentMode;
    }

    method ResetCycleTimers()
      modifies `secondsSinceLastPost, `secondsSinceLastCycleStart
      ensures State() == Restarted(old(State()))
    {
      secondsSinceLastPost, secondsSinceLastCycleStart := POST_SECONDS, CYCLE_SECONDS;
    }

    /** Restarts the cycle on a change of PAYG state, or when a stored id is no longer linked. */
    method PrepareCycle(state: PaygState) returns (numLinks: nat)
      requires linkManager.Allocated()
      modifies this
      ensures numLinks == AccessoryCount(linkManager.State(), linkManager.links.Length)
      ensures State() == Prepared(old(State()), linkManager.State(), state)
    {
      numLinks := linkManager.AccessoryLinkCount();
      if state != lastPaygState {
        ResetCycleTimers();
      }
      lastPaygState := state;
      if numLinks == 0 {
        return;
      }
      var last := linkManager.LinkIndexFromNxid(lastUpdatedNexusId);
      var first := linkManager.LinkIndexFromNxid(cycleFirstNexusId);
      if last.None? || first.None? {
        lastUpdatedNexusId, cycleFirstNexusId := NULL_ID, NULL_ID;
        ResetCycleTimers();
      }
    }

    /** The part of process() that sends POSTs; sent tells whether a POST, if any, goes out. */
    method ProcessLeader(nextId: NxId, secondsElapsed: U32, sent: bool) returns (sleep: U32, posts: bool)
      modifies this
      ensures (State(), sleep, posts) == Lead(old(State()), nextId, secondsElapsed, sent)
    {
      secondsSinceLastPost := Add32(secondsSinceLastPost, secondsElapsed);
      secondsSinceLastCycleStart := Add32(secondsSinceLastCycleStart, secondsElapsed);
      if cycleFirstNexusId == nextId {
        if secondsSinceLastCycleStart < CYCLE_SECONDS {
          return CYCLE_SECONDS - secondsSinceLastCycleStart, false;
        }
        secondsSinceLastCycleStart := 0;
      }
      if secondsSinceLastPost < POST_SECONDS {
        return POST_SECONDS - secondsSinceLastPost, false;
      }
      lastUpdatedNexusId := nextId;
      secondsSinceLastPost := 0;
      if !sent {
        return POST_SECONDS, true;
      }
      if cycleFirstNexusId == NULL_ID {
        cycleFirstNexusId := nextId;
        secondsSinceLastCycleStart := 0;
      }
      sleep, posts := POST_SECONDS, true;
    }

    /** nexus_channel_res_payg_credit_process() */
    method Process(p: Product, secondsElapsed: U32, sent: bool) returns (sleep: U32, posted: Option<NxId>, erased: bool)
      requires linkManager.Allocated()
      modifies this
      ensures Outcome(State(), sleep, posted, erased) == PaygCredit.Process(old(State()), linkManager.State(), p, secondsElapsed, sent)
    {
      hide Follow, Lead, Prepared, ModeOf, NextAccessory;
      remaining := Latest(p);
      var currentMode := GetCreditOperatingMode();
      sleep, erased := ProcessFollower(currentMode, secondsElapsed);
      posted := None;
      var numLinks := PrepareCycle(p.state);
      if numLinks == 0 {
        return;
      }
      var nextId := linkManager.NextLinkedAccessory(if lastUpdatedNexusId == NULL_ID then None else Some(lastUpdatedNexusId));
      if nextId.None? {
        return;
      }
      var posts: bool;
      sleep, posts := ProcessLeader(nextId.value, secondsElapsed, sent);
      if posts {
        posted := nextId;
      }
    }

    ghost predicate Listable()
      reads this, linkManager, linkManager.links, linkManager.linkIdxInUse, linkManager.linkIdxShouldPersistNonce,
            linkManager.nvBlocks
    {
      linkManager.Allocated() && Inv(linkManager.State())
    }

    /** Every linked accessory once, in slot order, unless only one of several is counted; then just the first. */
    ghost function Listed(): (r: seq<NxId>)
      requires linkManager.Allocated()
      reads this, linkManager, linkManager.links, linkManager.linkIdxInUse, linkManager.linkIdxShouldPersistNonce,
            linkManager.nvBlocks
    {
      Walked(linkManager.State())
    }

    /** The accessory to list after prevId; None when there is none or the walk is back at the first. */
    method NextToList(ghost k: nat, prevId: NxId, firstId: NxId) returns (next: Option<NxId>)
      requires linkManager.Allocated() && k < |Listed()| && prevId == Listed()[k] && firstId == Listed()[0] && Listable()
      ensures var all := Listed(); next == if k + 1 < |all| then Some(all[k + 1]) else None
    {
      NextListed(linkManager.State(), k);
      next := linkManager.NextLinkedAccessory(Some(prevId));
      if next.Some? && firstId == next.value {
        next := None;
      }
    }

    method FirstToList() returns (first: Option<NxId>)
      requires linkManager.Allocated()
      ensures first == if Listed() == [] then None else Some(Listed()[0])
    {
      NextStarts(linkManager.State());
      first := linkManager.NextLinkedAccessory(None);
    }

    /** The list of controlled devices in the GET handler. */
    method ListControlledIds() returns (ids: seq<NxId>)
      requires linkManager.Allocated() && Listable()
      ensures ids == Listed()
    {
      hide *;
      ghost var all := Listed();
      ids := [];
      var first := FirstToList();
      var next := first;
      while next.Some?
        invariant |ids| <= |all| && ids == all[..|ids|] && first == (if all == [] then None else Some(all[0]))
        invariant next == if |ids| < |all| then Some(all[|ids|]) else None
        decreases |all| - |ids|
      {
        var prevId := next.value;
        ids := ids + [prevId];
        next := NextToList(|ids| - 1, prevId, first.value);
      }
    }

    /** The last property named "re" that is an integer of at most 2^32 - 1, modulo 2^32; others are passed over. */
    method ExtractCredit(reps: seq<Rep>) returns (credit: Option<U32>)
      ensures credit.None? <==>
        forall i :: 0 <= i < |reps| && reps[i].name == "re" && reps[i].IntRep? ==> reps[i].number > 0xFFFF_FFFF
      ensures credit.Some? ==> exists i ::
        && 0 <= i < |reps| && reps[i].name == "re" && reps[i].IntRep? && reps[i].number <= 0xFFFF_FFFF
        && credit.value == reps[i].number % 0x1_0000_0000
        && forall k :: i < k < |reps| && reps[k].name == "re" && reps[k].IntRep? ==> reps[k].number > 0xFFFF_FFFF
    {
      credit := None;
      ghost var at := -1;
      for i := 0 to |reps|
        invariant -1 <= at < i
        invariant credit.None? <==> at == -1
        invariant at >= 0 ==> reps[at].name == "re" && reps[at].IntRep? && reps[at].number <= 0xFFFF_FFFF
        invariant at >= 0 ==> credit == Some(reps[at].number % 0x1_0000_0000)
        invariant forall k :: at < k < i && reps[k].name == "re" && reps[k].IntRep? ==> reps[k].number > 0xFFFF_FFFF
      {
        if reps[i].name == "re" {
          if reps[i].IntRep? && reps[i].number <= UINT32_MAX {
            credit := Some(reps[i].number % 0x1_0000_0000);
            at := i;
          }
        }
      }
    }

    /** update_from_post_or_get(): the product gets the new credit, or is unlocked. */
    method UpdateFromPostOrGet(newRemaining: U32) returns (unlocked: bool)
      requires linkManager.Allocated()
      modifies this
      ensures unlocked == (newRemaining == UNLOCKED_CREDIT)
      ensures State() == old(State()).(remaining := newRemaining,
        sinceUpdated := if ModeOf(linkManager.State()) == Following then 0 else old(followerModeSecondsSinceCreditUpdated))
    {
      remaining := newRemaining;
      unlocked := remaining == UNLOCKED_CREDIT;
      var current := GetCreditOperatingMode();
      if current == Following {
        followerModeSecondsSinceCreditUpdated := 0;
      }
    }
  }

  // ---------------------------------------------------------------- runs of a follower

  datatype Quiet = Quiet(state: Payg, sleep: int, erased: nat)

  /** A locked follower that hears nothing after a credit update: its state, its deadline, its erasures. */
  function Silent(s: Payg, credits: seq<U32>, dts: seq<U32>): (r: Quiet)
    requires |credits| == |dts|
  {
    if dts == [] then Quiet(s, FOLLOWER_SECONDS - s.sinceUpdated, 0)
    else
      var n := |dts| - 1;
      var q := Silent(s, credits[..n], dts[..n]);
      var (s', sleep, now) := Follow(q.state.(remaining := credits[n]), Following, dts[n]);
      Quiet(s', sleep, q.erased + if now then 1 else 0)
  }

  /** Every call comes no later than the previous one asked for, and the device is never unlocked. */
  ghost predicate Prompt(s: Payg, credits: seq<U32>, dts: seq<U32>)
    requires |credits| == |dts|
  {
    dts == [] ||
    var n := |dts| - 1;
    Prompt(s, credits[..n], dts[..n]) && credits[n] != UNLOCKED_CREDIT && dts[n] <= Silent(s, credits[..n], dts[..n]).sleep
  }

  /** The credit of a silent follower is erased once 75 s have passed, not before; the call that does it comes at 75 s. */
  lemma {:induction false} ErasedAfter75Seconds(s: Payg, credits: seq<U32>, dts: seq<U32>)
    requires |credits| == |dts| && s.sinceUpdated == 0 && Prompt(s, credits, dts)
    ensures var q := Silent(s, credits, dts);
      && (q.erased > 0 <==> Total(dts) >= 75)
      && (q.erased == 0 ==> q.state.sinceUpdated == Total(dts) && q.sleep == 75 - Total(dts))
      && (q.erased > 0 && Silent(s, credits[..|dts| - 1], dts[..|dts| - 1]).erased == 0 ==> Total(dts) == 75 && q.state.remaining == 0)
  {
    if dts != [] {
      var n := |dts| - 1;
      ErasedAfter75Seconds(s, credits[..n], dts[..n]);
    }
  }
}
