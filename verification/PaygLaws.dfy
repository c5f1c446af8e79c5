/** What PAYG credit a device has at start-up and after each call, for the links and the product it has. */
module PaygLaws {
  import opened Prelude
  import opened Links
  import opened LinkIteration
  import opened PaygCredit

  /** A used link in which this device is the controller. */
  ghost predicate HasAccessory(t: Table) {
    exists i :: 0 <= i < |t.links| == |t.inUse| && t.inUse[i] && t.links[i].mode == OperatingMode.Controller
  }

  /** A used link in which this device is the accessory. */
  ghost predicate HasController(t: Table) {
    exists i :: 0 <= i < |t.links| == |t.inUse| && t.inUse[i] && t.links[i].mode == Accessory
  }

  /** A device leads exactly when it controls a link, and follows exactly when it is an accessory on one. */
  lemma ModeMeaning(t: Table)
    requires |t.links| == |t.inUse|
    ensures ModeOf(t) == Leading || ModeOf(t) == Relaying <==> HasAccessory(t)
    ensures ModeOf(t) == Following || ModeOf(t) == Relaying <==> HasController(t)
  {
    hide HasRole;
  }

  predicate IsUnlocked(p: Product) {
    p.state == Unlocked || p.credit == 0xFFFF_FFFF
  }

  /**
   * Start-up: unlocked stays unlocked; a device that only follows, or that has no links in a build without controller
   * support, starts with no credit; any other with what the product has stored. The first POST is due at once.
   */
  lemma StartMeaning(t: Table, p: Product, controllers: bool)
    requires |t.links| == |t.inUse|
    ensures var s := PaygCredit.Init(t, p, controllers);
      && (IsUnlocked(p) ==> s.remaining == 0xFFFF_FFFF)
      && (!IsUnlocked(p) && !HasAccessory(t) && (HasController(t) || !controllers) ==> s.remaining == 0)
      && (!IsUnlocked(p) && (HasAccessory(t) || (!HasController(t) && controllers)) ==> s.remaining == p.credit)
      && s.mode == ModeOf(t) && s.sinceUpdated == 0 && s.lastState == p.state
      && s.lastUpdated == NULL_ID && s.cycleFirst == NULL_ID
  {
    ModeMeaning(t);
    hide HasRole, ModeOf;
  }

  /** A locked device that has only a controller. */
  ghost predicate OnlyFollows(t: Table, p: Product) {
    !IsUnlocked(p) && HasController(t) && !HasAccessory(t)
  }

  /** A locked device that followed at the last call and has no links any more. */
  ghost predicate LostController(s: Payg, t: Table, p: Product) {
    !IsUnlocked(p) && s.mode == Following && !HasController(t) && !HasAccessory(t)
  }

  predicate SameCredit(a: Payg, b: Payg) {
    a.remaining == b.remaining && a.sinceUpdated == b.sinceUpdated && a.mode == b.mode
  }

  lemma LeaderKeepsCredit(s: Payg, t: Table, state: PaygState, next: NxId, dt: U32, sent: bool)
    requires |t.links| == |t.inUse|
    ensures SameCredit(Prepared(s, t, state), s) && Prepared(s, t, state).lastState == state
    ensures SameCredit(Lead(s, next, dt, sent).0, s) && Lead(s, next, dt, sent).0.lastState == s.lastState
  {
    hide Find, AccessoryCount;
  }

  lemma CallKeepsCredit(s: Payg, t: Table, p: Product, dt: U32, sent: bool)
    requires |t.links| == |t.inUse|
    ensures var o, (s1, _, erased) := PaygCredit.Process(s, t, p, dt, sent), Follow(s.(remaining := Latest(p)), ModeOf(t), dt);
      SameCredit(o.state, s1) && o.erased == erased && o.state.lastState == p.state
  {
    hide Follow, Prepared, Lead, ModeOf, NextId, AccessoryCount, Latest;
    var s1 := Follow(s.(remaining := Latest(p)), ModeOf(t), dt).0;
    var s2 := Prepared(s1, t, p.state);
    LeaderKeepsCredit(s1, t, p.state, NULL_ID, dt, sent);
    if NextId(s2, t).Some? { LeaderKeepsCredit(s2, t, p.state, NextId(s2, t).value, dt, sent); }
  }

  /**
   * Each call takes over the product's credit. It erases it exactly on a locked device that only follows and has not
   * been updated for 75 s, or that has just lost its only kind of link, a controller; the 75 s then start again.
   */
  lemma CreditAfterCall(s: Payg, t: Table, p: Product, dt: U32, sent: bool)
    requires |t.links| == |t.inUse|
    ensures var o, since := PaygCredit.Process(s, t, p, dt, sent), (s.sinceUpdated + dt) % 0x1_0000_0000;
      && (o.erased <==> (OnlyFollows(t, p) && since >= 75) || LostController(s, t, p))
      && o.state.remaining == (if o.erased then 0 else if IsUnlocked(p) then 0xFFFF_FFFF else p.credit)
      && o.state.sinceUpdated == (if !OnlyFollows(t, p) then s.sinceUpdated else if o.erased then 0 else since)
      && o.state.mode == ModeOf(t) && o.state.lastState == p.state
  {
    hide ModeOf, HasAccessory, HasController, PaygCredit.Process;
    ModeMeaning(t);
    CallKeepsCredit(s, t, p, dt, sent);
  }

  /** Without accessories a call posts nothing, and asks for the next one when a follower's 75 s are over, else in 240 s. */
  lemma SleepWithoutAccessories(s: Payg, t: Table, p: Product, dt: U32, sent: bool)
    requires |t.links| == |t.inUse| && !HasAccessory(t)
    ensures var o := PaygCredit.Process(s, t, p, dt, sent);
      && o.posted.None?
      && (o.sleep == if OnlyFollows(t, p) && !o.erased then 75 - o.state.sinceUpdated else 240)
      && o.state.lastUpdated == s.lastUpdated && o.state.cycleFirst == s.cycleFirst
      && o.state.sincePost == (if p.state == s.lastState then s.sincePost else 2)
      && o.state.sinceCycle == (if p.state == s.lastState then s.sinceCycle else 25)
  {
    ModeMeaning(t);
    NoneCounted(t, |t.links|);
    hide HasRole, ModeOf, NextId, AccessoryCount, Find;
  }

  lemma {:induction false} NoneCounted(t: Table, n: nat)
    requires n <= |t.links| == |t.inUse| && !HasAccessory(t)
    ensures AccessoryCount(t, n) == 0
  {
    if n > 0 { NoneCounted(t, n - 1); }
  }

  // ---------------------------------------------------------------- POSTs that do not go out

  lemma LeadsUnsent(s: Payg, next: NxId, dt: U32)
    requires s.lastUpdated == s.cycleFirst == NULL_ID && s.sincePost == POST_SECONDS && next != NULL_ID && dt <= IDLE_SECONDS
    ensures var (s', sleep, posted) := Lead(s, next, dt, false);
      posted && sleep == POST_SECONDS && s'.lastUpdated == next && s'.cycleFirst == NULL_ID
  {
  }

  /** A first POST that does not go out starts no cycle: the next call posts to the first accessory again. */
  lemma UnsentFirstPostIsRepeated(s: Payg, t: Table, p: Product, dt: U32, p': Product, dt': U32)
    requires Steady(t) && (Find(t, s.lastUpdated).None? || Find(t, s.cycleFirst).None?)
    requires dt <= IDLE_SECONDS && dt' <= IDLE_SECONDS
    ensures var o := PaygCredit.Process(s, t, p, dt, false);
      && o.posted == Some(LinkedAccessories(t)[0]) && o.state.cycleFirst == NULL_ID && o.sleep == POST_SECONDS
      && PaygCredit.Process(o.state, t, p', dt', true).posted == Some(LinkedAccessories(t)[0])
  {
    AccessoryIsLinked(t, 0);
    NextStarts(t);
    hide Links.Inv, Find, NextAccessory, LinkedAccessories, AccessoryCount, GoesRound, ModeOf, Follow, Prepared, Lead, OnSchedule;
    var s1 := Follow(s.(remaining := Latest(p)), ModeOf(t), dt).0;
    FollowKeepsTimers(s.(remaining := Latest(p)), ModeOf(t), dt);
    PreparedAfresh(s1, t, p.state);
    LeadsUnsent(Prepared(s1, t, p.state), LinkedAccessories(t)[0], dt);
    FirstPost(PaygCredit.Process(s, t, p, dt, false).state, t, p', dt');
  }

  /** Within a cycle it makes no difference whether a POST goes out. */
  lemma UnsentWithinCycle(s: Payg, t: Table, p: Product, dt: U32, k: nat, x: nat)
    requires Steady(t) && OnSchedule(s, LinkedAccessories(t), k, x) && p.state == s.lastState
    ensures PaygCredit.Process(s, t, p, dt, false) == PaygCredit.Process(s, t, p, dt, true)
  {
    AccessoryIsLinked(t, 0);
    NextOnSchedule(s, t, k, x);
    FollowKeepsTimers(s.(remaining := Latest(p)), ModeOf(t), dt);
    PreparedAlready(s, Followed(s, t, p, dt), t, p.state);
    SentOnlyStartsCycles(Followed(s, t, p, dt), NextId(s, t).value, dt);
    hide Follow, Inv, Find, NextAccessory, LinkedAccessories, ModeOf, Lead, GoesRound, AccessoryCount, Prepared;
  }

  lemma SentOnlyStartsCycles(s: Payg, next: NxId, dt: U32)
    requires s.cycleFirst != NULL_ID
    ensures Lead(s, next, dt, false) == Lead(s, next, dt, true)
  {
  }
}
