/**
 * PAYG credit between linked devices: a leader posts its credit to its accessories in turn, a follower
 * loses its credit when it hears nothing for too long.
 */
module PaygCredit {
  import opened Prelude
  import opened Links
  import opened LinkIteration

  const UNLOCKED_CREDIT: U32 := UINT32_MAX
  const IDLE_SECONDS: U32 := 240
  const POST_SECONDS: U32 := 2
  const CYCLE_SECONDS: U32 := 25
  const FOLLOWER_SECONDS: U32 := 75
  const NULL_ID := NxId(0, 0)

  datatype PaygState = Disabled | Enabled | Unlocked
  datatype CreditMode = Independent | Leading | Following | Relaying

  /** What the product reports about itself. */
  datatype Product = Product(state: PaygState, credit: U32)

  datatype Payg = Payg(
    remaining: U32, mode: CreditMode, sinceUpdated: U32, lastState: PaygState,
    lastUpdated: NxId, sincePost: U32, cycleFirst: NxId, sinceCycle: U32)

  predicate HasRole(t: Table, mode: OperatingMode, n: nat)
    requires n <= |t.links| == |t.inUse|
    ensures HasRole(t, mode, n) <==> exists i :: 0 <= i < n && t.inUse[i] && t.links[i].mode == mode
  {
    n > 0 && (HasRole(t, mode, n - 1) || (t.inUse[n - 1] && t.links[n - 1].mode == mode))
  }

  /** This device leads when it controls a link and follows when a controller is linked to it. */
  function ModeOf(t: Table): (r: CreditMode)
    requires |t.links| == |t.inUse|
  {
    var hasAccessory, hasController := HasRole(t, OperatingMode.Controller, |t.links|), HasRole(t, Accessory, |t.links|);
    if hasAccessory && hasController then Relaying
    else if hasAccessory then Leading
    else if hasController then Following
    else Independent
  }

  function Latest(p: Product): (r: U32) {
    if p.state == Unlocked then UNLOCKED_CREDIT else p.credit
  }

  // ---------------------------------------------------------------- start-up

  /** The credit after start-up; controllers tells whether the build supports the controller role. */
  function InitialCredit(mode: CreditMode, stored: U32, controllers: bool): (r: U32) {
    if stored == UNLOCKED_CREDIT then stored
    else if mode == Following || (mode == Independent && !controllers) then 0
    else stored
  }

  function Init(t: Table, p: Product, controllers: bool): (r: Payg)
    requires |t.links| == |t.inUse|
  {
    var mode := ModeOf(t);
    Payg(InitialCredit(mode, Latest(p), controllers), mode, 0, p.state, NULL_ID, POST_SECONDS, NULL_ID, CYCLE_SECONDS)
  }

  // ---------------------------------------------------------------- following

  /** The follower's part of process(): new state, time to sleep, and whether credit is erased. */
  function Follow(s: Payg, mode: CreditMode, dt: U32): (r: (Payg, U32, bool)) {
    if s.remaining == UNLOCKED_CREDIT then (s.(mode := mode), IDLE_SECONDS, false)
    else if mode == Following then
      var since := Add32(s.sinceUpdated, dt);
      if since >= FOLLOWER_SECONDS then (s.(remaining := 0, sinceUpdated := 0, mode := mode), IDLE_SECONDS, true)
      else (s.(sinceUpdated := since, mode := mode), FOLLOWER_SECONDS - since, false)
    else if mode == Independent && s.mode == Following then (s.(remaining := 0, mode := mode), IDLE_SECONDS, true)
    else (s.(mode := mode), IDLE_SECONDS, false)
  }

  // ---------------------------------------------------------------- leading

  function Restarted(s: Payg): (r: Payg) {
    s.(sincePost := POST_SECONDS, sinceCycle := CYCLE_SECONDS)
  }

  /** A change of PAYG state, or an id that is no longer linked, starts a new cycle at once. */
  function Prepared(s: Payg, t: Table, state: PaygState): (r: Payg)
    requires |t.links| == |t.inUse|
  {
    var s1 := if state != s.lastState then Restarted(s).(lastState := state) else s;
    if AccessoryCount(t, |t.links|) > 0 && (Find(t, s1.lastUpdated).None? || Find(t, s1.cycleFirst).None?)
    then Restarted(s1).(lastUpdated := NULL_ID, cycleFirst := NULL_ID) else s1
  }

  function NextId(s: Payg, t: Table): (r: Option<NxId>)
    requires |t.links| == |t.inUse|
  {
    NextAccessory(t, if s.lastUpdated == NULL_ID then None else Some(s.lastUpdated))
  }

  /** The leader's part of process() once the next id is known: state, time to sleep, and whether it posts. */
  function Lead(s: Payg, next: NxId, dt: U32, sent: bool): (r: (Payg, U32, bool)) {
    var s1 := s.(sincePost := Add32(s.sincePost, dt), sinceCycle := Add32(s.sinceCycle, dt));
    if s1.cycleFirst == next && s1.sinceCycle < CYCLE_SECONDS then (s1, CYCLE_SECONDS - s1.sinceCycle, false)
    else
      var s2 := if s1.cycleFirst == next then s1.(sinceCycle := 0) else s1;
      if s2.sincePost < POST_SECONDS then (s2, POST_SECONDS - s2.sincePost, false)
      else
        var s3 := s2.(lastUpdated := next, sincePost := 0);
        if sent && s3.cycleFirst == NULL_ID then (s3.(cycleFirst := next, sinceCycle := 0), POST_SECONDS, true)
        else (s3, POST_SECONDS, true)
  }

  datatype Outcome = Outcome(state: Payg, sleep: U32, posted: Option<NxId>, erased: bool)

  /** nexus_channel_res_payg_credit_process(); sent tells whether a POST, if any, goes out. */
  function Process(s: Payg, t: Table, p: Product, dt: U32, sent: bool): (r: Outcome)
    requires |t.links| == |t.inUse|
  {
    var (s1, sleep, erased) := Follow(s.(remaining := Latest(p)), ModeOf(t), dt);
    var s2 := Prepared(s1, t, p.state);
    if AccessoryCount(t, |t.links|) == 0 then Outcome(s2, sleep, None, erased)
    else
      var next := NextId(s2, t);
      if next.None? then Outcome(s2, sleep, None, erased)
      else
        var (s3, sleep', posted) := Lead(s2, next.value, dt, sent);
        Outcome(s3, sleep', if posted then next else None, erased)
  }

  // ---------------------------------------------------------------- the leader's schedule

  /** Seconds from the POST to the k-th accessory of n until the next POST. */
  function Gap(k: nat, n: nat): (r: int) {
    if k + 1 < n then POST_SECONDS else CYCLE_SECONDS - 2 * (n - 1)
  }

  /** The table a leader works on: accessories it counts and goes round, and no link to the null id. */
  ghost predicate Steady(t: Table) {
    Inv(t) && Find(t, NULL_ID).None? && LinkedAccessories(t) != [] && AccessoryCount(t, |t.links|) > 0 && GoesRound(t)
  }

  /** The walk over the accessories is one cycle, by NextIsCyclicIff. */
  predicate GoesRound(t: Table)
    requires |t.links| == |t.inUse|
  {
    AccessoryCount(t, |t.links|) == 1 <==> |LinkedAccessories(t)| == 1
  }

  /** Tables with only the two roles of the handshake are such tables as soon as an accessory is linked. */
  lemma PlainIsSteady(t: Table)
    requires Inv(t) && PlainRoles(t) && Find(t, NULL_ID).None?
    ensures Steady(t) <==> LinkedAccessories(t) != []
  {
    CountIsLength(t, |t.links|);
  }

  /** x seconds after the POST to the k-th accessory. */
  predicate OnSchedule(s: Payg, a: seq<NxId>, k: nat, x: nat) {
    && k < |a| && x < Gap(k, |a|)
    && s.lastUpdated == a[k] && s.cycleFirst == a[0] && s.sincePost == x && s.sinceCycle == 2 * k + x
  }

  lemma AccessoryIsLinked(t: Table, k: nat)
    requires Steady(t) && k < |LinkedAccessories(t)|
    ensures Find(t, LinkedAccessories(t)[k]).Some? && LinkedAccessories(t)[k] != NULL_ID
    ensures |LinkedAccessories(t)| <= 10
  {
    var s := ServingSlots(t, |t.links|);
    ServingIsInUse(t, k);
    FoundInItsSlot(t, s[k]);
    AtMostOnePerSlot(t, |t.links|);
  }


  lemma {:induction false} AtMostOnePerSlot(t: Table, n: nat)
    requires n <= |t.links| == |t.inUse|
    ensures |ServingSlots(t, n)| <= n
  {
    if n > 0 { AtMostOnePerSlot(t, n - 1); }
  }

  /** What process() asserts holds on every table: when it counts an accessory, a next one is found. */
  lemma NextIdIsFound(s: Payg, t: Table)
    requires Inv(t) && AccessoryCount(t, |t.links|) > 0 && (s.lastUpdated == NULL_ID || Find(t, s.lastUpdated).Some?)
    ensures NextId(s, t).Some?
  {
    CountAtMostLength(t, |t.links|);
    NextStarts(t);
    hide Inv, Find, ServingSlots, AccessoryCount, FirstServing;
    if s.lastUpdated != NULL_ID && AccessoryCount(t, |t.links|) > 1 {
      AnotherServes(t, Find(t, s.lastUpdated).value);
    }
  }

  /** Where two accessories serve, one serves beside any slot. */
  lemma AnotherServes(t: Table, p: nat)
    requires |t.links| == |t.inUse| && |ServingSlots(t, |t.links|)| > 1 && p < |t.links|
    ensures NextServing(t, p).Some?
  {
    var slots := ServingSlots(t, |t.links|);
    ServingSlotsAre(t, |t.links|);
    assert slots[0] != p || slots[1] != p;
    assert Serving(t, slots[0]) && Serving(t, slots[1]);
    hide ServingSlots, Serving;
  }

  /** So process() always has a next accessory once it has dropped ids that are no longer linked. */
  lemma ProcessFindsNext(s: Payg, t: Table, p: Product, dt: U32)
    requires Inv(t) && AccessoryCount(t, |t.links|) > 0
    ensures NextId(Prepared(Follow(s.(remaining := Latest(p)), ModeOf(t), dt).0, t, p.state), t).Some?
  {
    var s1 := Prepared(Follow(s.(remaining := Latest(p)), ModeOf(t), dt).0, t, p.state);
    assert s1.lastUpdated == NULL_ID || Find(t, s1.lastUpdated).Some? by { hide Inv, AccessoryCount, Follow; }
    NextIdIsFound(s1, t);
  }

  lemma NextOnSchedule(s: Payg, t: Table, k: nat, x: nat)
    requires Steady(t) && OnSchedule(s, LinkedAccessories(t), k, x)
    ensures var a := LinkedAccessories(t); NextId(s, t) == Some(a[Successor(k, |a|)])
    ensures Prepared(s, t, s.lastState) == s
  {
    hide Inv, Find, NextAccessory;
    AccessoryIsLinked(t, k);
    AccessoryIsLinked(t, 0);
    NextIs(t, k);
  }

  lemma FollowKeepsTimers(s: Payg, mode: CreditMode, dt: U32)
    ensures var s' := Follow(s, mode, dt).0;
      && s'.lastState == s.lastState && s'.lastUpdated == s.lastUpdated && s'.sincePost == s.sincePost
      && s'.cycleFirst == s.cycleFirst && s'.sinceCycle == s.sinceCycle
  {
  }

  lemma LeadOnTime(s: Payg, next: NxId, k: nat, n: nat, x: nat, dt: U32)
    requires k < n <= 12 && x < Gap(k, n) && x + dt <= Gap(k, n) && s.cycleFirst != NULL_ID
    requires s.sincePost == x && s.sinceCycle == 2 * k + x && (next == s.cycleFirst <==> k + 1 == n)
    ensures var (s', sleep, posts) := Lead(s, next, dt, true);
      && s'.lastState == s.lastState && s'.cycleFirst == s.cycleFirst
      && if x + dt < Gap(k, n)
         then !posts && s'.lastUpdated == s.lastUpdated && sleep == Gap(k, n) - (x + dt)
              && s'.sincePost == x + dt && s'.sinceCycle == 2 * k + x + dt
         else posts && s'.lastUpdated == next && sleep == POST_SECONDS
              && s'.sincePost == 0 && s'.sinceCycle == 2 * Successor(k, n)
  {
    assert Add32(s.sincePost, dt) == x + dt && Add32(s.sinceCycle, dt) == 2 * k + x + dt;
    hide Add32;
    if k + 1 == n {
      assert Successor(k, n) == 0;
    } else {
      assert Successor(k, n) == k + 1;
    }
  }

  /** The state process() hands to the leader's part. */
  function Followed(s: Payg, t: Table, p: Product, dt: U32): (r: Payg)
    requires |t.links| == |t.inUse|
  {
    Follow(s.(remaining := Latest(p)), ModeOf(t), dt).0
  }

  lemma ProcessLeads(s: Payg, t: Table, p: Product, dt: U32, next: NxId)
    requires Steady(t) && p.state == s.lastState && Prepared(s, t, p.state) == s && NextId(s, t) == Some(next)
    ensures var o := Process(s, t, p, dt, true); var s1 := Followed(s, t, p, dt);
      && SameTimers(s1, s) && Lead(s1, next, dt, true) == (o.state, o.sleep, o.posted.Some?)
      && (o.posted.Some? ==> o.posted == Some(next))
  {
    FollowKeepsTimers(s.(remaining := Latest(p)), ModeOf(t), dt);
    hide Follow, Inv, Find, NextAccessory, LinkedAccessories, ModeOf, Lead, GoesRound, AccessoryCount;
    PreparedAlready(s, Followed(s, t, p, dt), t, p.state);
    hide Prepared;
  }

  lemma PreparedAlready(s: Payg, s1: Payg, t: Table, state: PaygState)
    requires |t.links| == |t.inUse| && Prepared(s, t, state) == s && SameTimers(s1, s) && state == s.lastState
    ensures Prepared(s1, t, state) == s1
  {
    hide Find, AccessoryCount;
  }

  predicate SameTimers(a: Payg, b: Payg) {
    && a.lastUpdated == b.lastUpdated && a.sincePost == b.sincePost && a.cycleFirst == b.cycleFirst
    && a.sinceCycle == b.sinceCycle && a.lastState == b.lastState
  }

  /** x seconds after POST k, a call after dt more posts exactly when the next POST is due, to the next accessory. */
  ghost predicate InTime(a: seq<NxId>, k: nat, x: nat, dt: nat, o: Outcome) {
    if x + dt < Gap(k, |a|)
    then o.posted.None? && OnSchedule(o.state, a, k, x + dt) && o.sleep == Gap(k, |a|) - (x + dt)
    else k < |a| && o.posted == Some(a[Successor(k, |a|)]) && OnSchedule(o.state, a, Successor(k, |a|), 0) && o.sleep == POST_SECONDS
  }

  lemma FirstAfterLast(t: Table, k: nat)
    requires Inv(t) && k < |LinkedAccessories(t)|
    ensures var a := LinkedAccessories(t); a[Successor(k, |a|)] == a[0] <==> k + 1 == |a|
  {
    AccessoriesDistinct(t);
  }

  lemma LeadInTime(s: Payg, s1: Payg, a: seq<NxId>, k: nat, x: nat, dt: U32, o: Outcome)
    requires |a| <= 12 && OnSchedule(s, a, k, x) && SameTimers(s1, s) && x + dt <= Gap(k, |a|)
    requires a[0] != NULL_ID && (a[Successor(k, |a|)] == a[0] <==> k + 1 == |a|)
    requires Lead(s1, a[Successor(k, |a|)], dt, true) == (o.state, o.sleep, o.posted.Some?)
    requires o.posted.Some? ==> o.posted == Some(a[Successor(k, |a|)])
    ensures o.state.lastState == s.lastState && InTime(a, k, x, dt, o)
  {
    LeadOnTime(s1, a[Successor(k, |a|)], k, |a|, x, dt);
    hide Lead;
  }

  /** One call no later than the next POST is due. */
  lemma StepOnSchedule(s: Payg, t: Table, k: nat, x: nat, p: Product, dt: U32)
    requires Steady(t) && OnSchedule(s, LinkedAccessories(t), k, x) && p.state == s.lastState
    requires x + dt <= Gap(k, |LinkedAccessories(t)|)
    ensures var o := Process(s, t, p, dt, true);
      o.state.lastState == s.lastState && InTime(LinkedAccessories(t), k, x, dt, o)
  {
    var a := LinkedAccessories(t);
    AccessoryIsLinked(t, 0);
    FirstAfterLast(t, k);
    hide Inv, Find, NextAccessory, LinkedAccessories, Process, Lead, NextId, Prepared, Followed, InTime;
    NextOnSchedule(s, t, k, x);
    ProcessLeads(s, t, p, dt, a[Successor(k, |a|)]);
    LeadInTime(s, Followed(s, t, p, dt), a, k, x, dt, Process(s, t, p, dt, true));
  }

  lemma PreparedAfresh(s: Payg, t: Table, state: PaygState)
    requires |t.links| == |t.inUse| && AccessoryCount(t, |t.links|) > 0
    requires Find(t, s.lastUpdated).None? || Find(t, s.cycleFirst).None?
    ensures var s' := Prepared(s, t, state);
      && s'.lastUpdated == s'.cycleFirst == NULL_ID && s'.sincePost == POST_SECONDS && s'.sinceCycle == CYCLE_SECONDS
      && s'.lastState == state
  {
    hide Find, AccessoryCount;
  }

  lemma LeadsAfresh(s: Payg, next: NxId, dt: U32)
    requires s.lastUpdated == s.cycleFirst == NULL_ID && s.sincePost == POST_SECONDS && next != NULL_ID && dt <= IDLE_SECONDS
    ensures var (s', sleep, posted) := Lead(s, next, dt, true);
      && posted && sleep == POST_SECONDS && s'.lastState == s.lastState && s'.lastUpdated == s'.cycleFirst == next
      && s'.sincePost == s'.sinceCycle == 0
  {
  }

  /** The first call after start-up, or after a stored id went out of use, posts to the first accessory. */
  lemma FirstPost(s: Payg, t: Table, p: Product, dt: U32)
    requires Steady(t) && (Find(t, s.lastUpdated).None? || Find(t, s.cycleFirst).None?) && dt <= IDLE_SECONDS
    ensures var o := Process(s, t, p, dt, true);
      && o.state.lastState == p.state && o.posted == Some(LinkedAccessories(t)[0])
      && OnSchedule(o.state, LinkedAccessories(t), 0, 0) && o.sleep == POST_SECONDS
  {
    AccessoryIsLinked(t, 0);
    NextStarts(t);
    hide Inv, Find, NextAccessory, LinkedAccessories, AccessoryCount, GoesRound, ModeOf, Follow, Prepared, Lead;
    var s1 := Follow(s.(remaining := Latest(p)), ModeOf(t), dt).0;
    FollowKeepsTimers(s.(remaining := Latest(p)), ModeOf(t), dt);
    PreparedAfresh(s1, t, p.state);
    LeadsAfresh(Prepared(s1, t, p.state), LinkedAccessories(t)[0], dt);
  }

  lemma RestartedLeads(s: Payg, state: PaygState, next: NxId, dt: U32, sent: bool)
    requires dt <= IDLE_SECONDS
    ensures var (s', sleep, posted) := Lead(Restarted(s).(lastState := state), next, dt, sent);
      posted && sleep == POST_SECONDS && s'.lastState == state && s'.lastUpdated == next
  {
  }

  /** A change of PAYG state is posted by the very next call, to the accessory whose turn it is, even in mid-cycle. */
  lemma StateChangeIsPostedAtOnce(s: Payg, t: Table, p: Product, dt: U32, sent: bool)
    requires Steady(t) && Find(t, s.lastUpdated).Some? && Find(t, s.cycleFirst).Some?
    requires p.state != s.lastState && dt <= IDLE_SECONDS
    ensures var o := Process(s, t, p, dt, sent);
      && o.posted == NextId(s, t) && o.posted.Some? && o.sleep == POST_SECONDS
      && o.state.lastState == p.state && o.state.lastUpdated == o.posted.value
  {
    NextIdIsFound(s, t);
    FollowKeepsTimers(s.(remaining := Latest(p)), ModeOf(t), dt);
    hide Follow, Inv, Find, NextAccessory, LinkedAccessories, ModeOf, Lead, Restarted, GoesRound, AccessoryCount;
    var s1 := Follow(s.(remaining := Latest(p)), ModeOf(t), dt).0;
    assert Prepared(s1, t, p.state) == Restarted(s1).(lastState := p.state) by { RestartKeepsIds(s1); }
    RestartKeepsIds(s1);
    RestartedLeads(s1, p.state, NextId(s, t).value, dt, sent);
  }

  lemma RestartKeepsIds(s: Payg)
    ensures Restarted(s).lastUpdated == s.lastUpdated && Restarted(s).cycleFirst == s.cycleFirst
  {
  }

  // ---------------------------------------------------------------- runs of the leader

  datatype Call = Call(product: Product, dt: U32)
  datatype Post = Post(at: nat, id: NxId)
  datatype Trace = Trace(state: Payg, now: nat, sleep: U32, posts: seq<Post>)

  function Extended(r: Trace, dt: nat, o: Outcome): (v: Trace) {
    Trace(o.state, r.now + dt, o.sleep, if o.posted.Some? then r.posts + [Post(r.now + dt, o.posted.value)] else r.posts)
  }

  function Run(s: Payg, t: Table, calls: seq<Call>): (r: Trace)
    requires |t.links| == |t.inUse|
  {
    if calls == [] then Trace(s, 0, IDLE_SECONDS, [])
    else
      var r, c := Run(s, t, calls[..|calls| - 1]), calls[|calls| - 1];
      Extended(r, c.dt, Process(r.state, t, c.product, c.dt, true))
  }

  /** Every call comes no later than the previous one asked for, and the PAYG state never changes. */
  ghost predicate Punctual(s: Payg, t: Table, calls: seq<Call>, state: PaygState)
    requires |t.links| == |t.inUse|
  {
    calls == [] ||
    (Punctual(s, t, calls[..|calls| - 1], state)
     && calls[|calls| - 1].product.state == state
     && calls[|calls| - 1].dt <= Run(s, t, calls[..|calls| - 1]).sleep)
  }

  /** The accessory of POST j. */
  function Turn(j: nat, n: nat): (k: nat)
    requires n > 0
    ensures k < n
  {
    if j == 0 then 0 else Successor(Turn(j - 1, n), n)
  }

  /** When POST j is due, counted from the first one. */
  function Due(j: nat, n: nat): (r: nat)
    requires 0 < n <= 12
  {
    if j == 0 then 0 else Due(j - 1, n) + Gap(Turn(j - 1, n), n)
  }

  lemma {:induction false} TurnAndDueAt(j: nat, n: nat, q: nat, k: nat)
    requires 0 < n <= 12 && k < n && j == q * n + k
    ensures Turn(j, n) == k && Due(j, n) == 25 * q + 2 * k
    decreases j
  {
    if k > 0 {
      TurnAndDueAt(j - 1, n, q, k - 1);
    } else if q > 0 {
      assert (q - 1) * n == q * n - n;
      TurnAndDueAt(j - 1, n, q - 1, n - 1);
    }
  }

  lemma TurnAndDue(j: nat, n: nat)
    requires 0 < n <= 12
    ensures Turn(j, n) == j % n
    ensures Due(j, n) == 25 * (j / n) + 2 * (j % n)
  {
    TurnAndDueAt(j, n, j / n, j % n);
  }

  /** POST j goes to accessory Turn(j) and is made at Due(j). */
  predicate IsDue(post: Post, a: seq<NxId>, start: nat, j: nat)
    requires 0 < |a| <= 12
  {
    post == Post(start + Due(j, |a|), a[Turn(j, |a|)])
  }

  ghost predicate PostsAsDue(posts: seq<Post>, a: seq<NxId>, start: nat)
    requires 0 < |a| <= 12
  {
    forall j :: 0 <= j < |posts| ==> IsDue(posts[j], a, start, j)
  }

  lemma OnePostMore(posts: seq<Post>, post: Post, a: seq<NxId>, start: nat)
    requires 0 < |a| <= 12 && PostsAsDue(posts, a, start) && IsDue(post, a, start, |posts|)
    ensures PostsAsDue(posts + [post], a, start)
  {
    hide IsDue;
  }

  /** The POSTs made so far are those due so far, and the next call is in time for the next one. */
  ghost predicate AsScheduled(r: Trace, a: seq<NxId>, start: nat)
    requires 0 < |a| <= 12
  {
    && r.posts != []
    && PostsAsDue(r.posts, a, start)
    && start + Due(|r.posts| - 1, |a|) <= r.now
    && OnSchedule(r.state, a, Turn(|r.posts| - 1, |a|), r.now - start - Due(|r.posts| - 1, |a|))
    && r.now + r.sleep <= start + Due(|r.posts|, |a|)
  }

  lemma NextTrace(r: Trace, a: seq<NxId>, start: nat, dt: nat, o: Outcome)
    requires 0 < |a| <= 12 && AsScheduled(r, a, start) && dt <= r.sleep
    requires InTime(a, Turn(|r.posts| - 1, |a|), r.now - start - Due(|r.posts| - 1, |a|), dt, o)
    ensures AsScheduled(Extended(r, dt, o), a, start)
  {
    var n, j, r' := |a|, |r.posts| - 1, Extended(r, dt, o);
    assert Due(j + 1, n) == Due(j, n) + Gap(Turn(j, n), n);
    assert Due(j + 2, n) == Due(j + 1, n) + Gap(Turn(j + 1, n), n);
    assert Turn(j + 1, n) == Successor(Turn(j, n), n);
    GapAtLeast(Turn(j + 1, n), n);
    hide Due, Turn, Gap, OnSchedule, Successor, PostsAsDue;
    var x := r.now - start - Due(j, n);
    if x + dt < Gap(Turn(j, n), n) {
      SameTrace(r, a, start, x, dt, o);
    } else {
      LongerTrace(r, a, start, x, dt, o);
    }
  }

  lemma SameTrace(r: Trace, a: seq<NxId>, start: nat, x: nat, dt: nat, o: Outcome)
    requires 0 < |a| <= 12 && AsScheduled(r, a, start) && o.posted.None?
    requires var j := |r.posts| - 1;
      && x == r.now - start - Due(j, |a|) && OnSchedule(o.state, a, Turn(j, |a|), x + dt)
      && x + dt + o.sleep + Due(j, |a|) == Due(j + 1, |a|)
    ensures AsScheduled(Extended(r, dt, o), a, start)
  {
    hide Due, Turn, OnSchedule, PostsAsDue;
    assert Extended(r, dt, o).posts == r.posts;
  }

  lemma LongerTrace(r: Trace, a: seq<NxId>, start: nat, x: nat, dt: nat, o: Outcome)
    requires 0 < |a| <= 12 && AsScheduled(r, a, start)
    requires var j := |r.posts| - 1;
      && x == r.now - start - Due(j, |a|) && x + dt == Due(j + 1, |a|) - Due(j, |a|)
      && o.posted == Some(a[Turn(j + 1, |a|)]) && OnSchedule(o.state, a, Turn(j + 1, |a|), 0)
      && Due(j + 1, |a|) + o.sleep <= Due(j + 2, |a|)
    ensures AsScheduled(Extended(r, dt, o), a, start)
  {
    hide Due, Turn, OnSchedule, PostsAsDue;
    var r' := Extended(r, dt, o);
    assert r'.now == start + Due(|r.posts|, |a|);
    OnePostMore(r.posts, Post(r'.now, o.posted.value), a, start);
  }

  lemma GapAtLeast(k: nat, n: nat)
    requires 0 < n <= 12
    ensures Gap(k, n) >= POST_SECONDS
  {
  }

  lemma {:induction false} RunAsScheduled(s: Payg, t: Table, calls: seq<Call>, state: PaygState)
    requires Steady(t) && 0 < |LinkedAccessories(t)| <= 12 && (Find(t, s.lastUpdated).None? || Find(t, s.cycleFirst).None?)
    requires calls != [] && Punctual(s, t, calls, state)
    ensures AsScheduled(Run(s, t, calls), LinkedAccessories(t), calls[0].dt) && Run(s, t, calls).state.lastState == state
  {
    assert |t.links| == |t.inUse|;
    var before := Run(s, t, calls[..|calls| - 1]);
    var c := calls[|calls| - 1];
    hide Steady, Find, LinkedAccessories, Process, AsScheduled;
    if |calls| == 1 {
      FirstAsScheduled(s, t, c);
    } else {
      RunAsScheduled(s, t, calls[..|calls| - 1], state);
      assert calls[..|calls| - 1][0] == calls[0];
      CallAsScheduled(before, t, LinkedAccessories(t), calls[0].dt, c);
    }
  }

  lemma FirstAsScheduled(s: Payg, t: Table, c: Call)
    requires Steady(t) && 0 < |LinkedAccessories(t)| <= 12 && (Find(t, s.lastUpdated).None? || Find(t, s.cycleFirst).None?)
    requires c.dt <= IDLE_SECONDS
    ensures var r := Extended(Trace(s, 0, IDLE_SECONDS, []), c.dt, Process(s, t, c.product, c.dt, true));
      AsScheduled(r, LinkedAccessories(t), c.dt) && r.state.lastState == c.product.state
  {
    FirstPost(s, t, c.product, c.dt);
    hide *;
    TraceOfFirst(s, LinkedAccessories(t), c.dt, Process(s, t, c.product, c.dt, true));
  }

  lemma TraceOfFirst(s: Payg, a: seq<NxId>, dt: U32, o: Outcome)
    requires 0 < |a| <= 12 && o.posted == Some(a[0]) && OnSchedule(o.state, a, 0, 0) && o.sleep == POST_SECONDS
    ensures AsScheduled(Extended(Trace(s, 0, IDLE_SECONDS, []), dt, o), a, dt)
    ensures Extended(Trace(s, 0, IDLE_SECONDS, []), dt, o).state == o.state
  {
    hide OnSchedule, PostsAsDue;
    assert Due(0, |a|) == 0 && Due(1, |a|) == Gap(0, |a|) && Turn(0, |a|) == 0;
    GapAtLeast(0, |a|);
    hide Due, Gap, Turn;
    NoPosts(a, dt);
    OnePostMore([], Post(dt, a[0]), a, dt);
    assert [] + [Post(dt, a[0])] == [Post(dt, a[0])];
  }

  lemma NoPosts(a: seq<NxId>, start: nat)
    requires 0 < |a| <= 12
    ensures PostsAsDue([], a, start)
  {
  }

  lemma CallAsScheduled(r: Trace, t: Table, a: seq<NxId>, start: nat, c: Call)
    requires 0 < |a| <= 12 && AsScheduled(r, a, start) && c.dt <= r.sleep && c.product.state == r.state.lastState
    requires |t.links| == |t.inUse| && a == LinkedAccessories(t) && Steady(t)
    ensures AsScheduled(Extended(r, c.dt, Process(r.state, t, c.product, c.dt, true)), a, start)
    ensures Process(r.state, t, c.product, c.dt, true).state.lastState == r.state.lastState
  {
    hide Steady, Find, LinkedAccessories, Process, InTime, OnSchedule;
    var j := |r.posts| - 1;
    assert Due(j + 1, |a|) == Due(j, |a|) + Gap(Turn(j, |a|), |a|);
    hide Due, Gap, Turn;
    StepOnSchedule(r.state, t, Turn(j, |a|), r.now - start - Due(j, |a|), c.product, c.dt);
    NextTrace(r, a, start, c.dt, Process(r.state, t, c.product, c.dt, true));
  }

  lemma {:induction false} DueGrows(i: nat, j: nat, n: nat)
    requires i <= j && 0 < n <= 12
    ensures Due(i, n) <= Due(j, n)
  {
    if i < j { DueGrows(i, j - 1, n); }
  }

  lemma TraceSchedule(r: Trace, a: seq<NxId>, start: nat, j: nat)
    requires 0 < |a| <= 12 && AsScheduled(r, a, start)
    ensures j < |r.posts| <==> start + Due(j, |a|) <= r.now
    ensures j < |r.posts| ==> r.posts[j] == Post(start + Due(j, |a|), a[Turn(j, |a|)])
  {
    var n, posts := |a|, |r.posts|;
    assert Due(posts, n) == Due(posts - 1, n) + Gap(Turn(posts - 1, n), n);
    hide Due, Turn, Gap;
    if j < posts {
      DueGrows(j, posts - 1, n);
    } else {
      DueGrows(posts, j, n);
    }
  }

  /** A table never holds more accessories than the schedule allows. */
  lemma AtMostTwelve(t: Table)
    requires Steady(t)
    ensures 0 < |LinkedAccessories(t)| <= 12
  {
    AccessoryIsLinked(t, 0);
  }

  /**
   * With n linked accessories, process() called in time and every POST sent: POST j goes to accessory
   * j mod n in slot order at 25 (j div n) + 2 (j mod n) seconds, by TurnAndDue, so each accessory is
   * served every 25 s and 2 s after its predecessor; and no POST that is due is missing.
   */
  lemma LeaderSchedule(s: Payg, t: Table, calls: seq<Call>, state: PaygState, j: nat)
    requires Steady(t) && (Find(t, s.lastUpdated).None? || Find(t, s.cycleFirst).None?)
    requires calls != [] && Punctual(s, t, calls, state)
    ensures 0 < |LinkedAccessories(t)| <= 12
    ensures var a := LinkedAccessories(t); var r := Run(s, t, calls);
      && (j < |r.posts| <==> calls[0].dt + Due(j, |a|) <= r.now)
      && (j < |r.posts| ==> r.posts[j] == Post(calls[0].dt + Due(j, |a|), a[Turn(j, |a|)]))
  {
    AtMostTwelve(t);
    hide Steady, Find, Run, Due, Turn, AsScheduled, Punctual, LinkedAccessories;
    RunAsScheduled(s, t, calls, state);
    TraceSchedule(Run(s, t, calls), LinkedAccessories(t), calls[0].dt, j);
  }
}
