/**
 * Keycode message assembly: keys become frames between a start key and an end key or a fixed length,
 * and a token bucket limits how many frames may be tried.
 */
module KeycodeMas {
  import opened Prelude

  const MAX_MESSAGE_LENGTH := 30
  const NO_STOP_LENGTH := 255
  const IDLE_SECONDS: U32 := 240

  /** The build configuration: protocol, and the bucket's size, initial fill and refill time. */
  datatype Config = Config(small: bool, bucketMax: U8, initialCount: U8, refill: U32, timeout: U32) {
    function Start(): (r: char) { if small then '1' else '*' }

    function End(): (r: char) { if small then '?' else '#' }

    function StopLength(): (r: nat) { if small then 14 else NO_STOP_LENGTH }

    function Cap(): (r: nat)
      requires refill <= 3600
    {
      var max: int := bucketMax;
      max * refill
    }

    /** Rate limiting is off exactly when the bucket has no size. */
    predicate Valid() {
      if bucketMax == 0 then refill == 0 else 1 <= refill <= 3600
    }
  }

  datatype Mas = Mas(
    grace: U8, nv: Option<U8>, partial: string, exceeded: bool, bucket: U32, startSeen: bool, latest: U32)

  datatype Effect = Handled(frame: string) | MessageInvalid | KeyAccepted | KeyRejected

  // ---------------------------------------------------------------- the bucket

  predicate Limited(c: Config, s: Mas) {
    c.bucketMax != 0 && s.bucket < c.refill
  }

  function AddTime(c: Config, bucket: U32, dt: U32): (r: U32)
    requires c.Valid()
  {
    CapFits(c);
    if bucket + dt >= c.Cap() then c.Cap() else bucket + dt
  }

  lemma CapFits(c: Config)
    requires c.Valid()
    ensures c.Cap() <= 255 * 3600
  {
    Products(c.bucketMax, 255, c.refill, 3600);
  }

  function Deducted(c: Config, s: Mas): (r: Mas) {
    if c.bucketMax > 0 && s.bucket >= c.refill then s.(bucket := s.bucket - c.refill) else s
  }

  /** How many attempts the bucket holds. */
  function Attempts(c: Config, bucket: U32): (r: nat)
    requires c.Valid()
  {
    if c.bucketMax == 0 then 0 else bucket / c.refill
  }

  function GraceCount(c: Config, bucket: U32): (r: nat)
    requires c.Valid()
  {
    if c.bucketMax == 0 then 0
    else
      var initial: int := c.initialCount;
      if bucket >= initial * c.refill then c.initialCount else Attempts(c, bucket)
  }

  lemma GraceCountMeaning(c: Config, bucket: U32)
    requires c.Valid() && c.bucketMax > 0
    ensures var n := GraceCount(c, bucket); n == Min(c.initialCount, bucket / c.refill) && n * c.refill <= bucket
  {
    var initial: int, refill: int, b: int := c.initialCount, c.refill, bucket;
    var q := b / refill;
    assert b == q * refill + b % refill;
    if b >= initial * refill {
      if q < initial {
        Products(q + 1, initial, refill, refill);
      }
    } else if q >= initial {
      Products(initial, q, refill, refill);
    }
  }

  /** A device is limited exactly when its bucket has a size and holds no whole attempt; without a size it counts none. */
  lemma LimitedIff(c: Config, s: Mas)
    requires c.Valid()
    ensures Limited(c, s) <==> c.bucketMax > 0 && s.bucket / c.refill == 0
    ensures c.bucketMax == 0 ==> Attempts(c, s.bucket) == GraceCount(c, s.bucket) == 0
    ensures c.bucketMax > 0 ==> Attempts(c, s.bucket) == s.bucket / c.refill
  {
    if c.bucketMax > 0 && s.bucket < c.refill { DivModIs(s.bucket, c.refill, 0, s.bucket); }
    if c.bucketMax > 0 && s.bucket >= c.refill { QuotientPositive(s.bucket, c.refill); }
  }

  lemma QuotientPositive(a: nat, n: nat)
    requires 0 < n <= a
    ensures a / n > 0
  {
    var q, r := a / n, a % n;
    assert a == q * n + r;
    if q == 0 { assert q * n == 0; }
  }

  // ---------------------------------------------------------------- frames

  function Reset(s: Mas): (r: Mas) {
    s.(partial := "", exceeded := false)
  }

  function Pushed(s: Mas, key: char): (r: Mas) {
    if |s.partial| < MAX_MESSAGE_LENGTH then s.(partial := s.partial + [key]) else s.(exceeded := true)
  }

  predicate ReachedStop(c: Config, s: Mas) {
    c.StopLength() != NO_STOP_LENGTH && |s.partial| >= c.StopLength()
  }

  /** The frame goes to the handler unless it is empty or too long; either way it costs an attempt. */
  function Finished(c: Config, s: Mas): (r: (Mas, Effect)) {
    (Reset(Deducted(c, s.(startSeen := false))), if s.partial != "" && !s.exceeded then Handled(s.partial) else MessageInvalid)
  }

  /** bookend_push(): one key. */
  function PressKey(c: Config, s: Mas, key: char): (r: (Mas, Effect)) {
    var s0 := s.(latest := UINT32_MAX);
    if Limited(c, s0) then (s0, KeyRejected)
    else if key == c.Start() then (Reset(s0.(startSeen := true)), KeyAccepted)
    else if !s0.startSeen then (s0, KeyRejected)
    else if key == c.End() then Finished(c, s0)
    else
      var s1 := Pushed(s0, key);
      if ReachedStop(c, s1) then Finished(c, s1) else (s1, KeyAccepted)
  }

  /** Where the loop over a complete code ends: behind the last key, or at it; a length of 0 wraps around in 8 bits. */
  function LastKey(c: Config, length: U8): (last: U8) {
    if c.small then length else (length + 0xFF) % 0x100
  }

  /** The keys that handling a complete code may read. */
  predicate Readable(c: Config, keys: string, length: U8) {
    0 < |keys| && LastKey(c, length) <= |keys|
  }

  /** The keys between start and end of a complete code; the small protocol has no end key. */
  function BodyOf(c: Config, keys: string, length: U8): (r: string)
    requires Readable(c, keys, length)
  {
    if LastKey(c, length) <= 1 then "" else keys[1..LastKey(c, length)]
  }

  function PushUntilStop(c: Config, s: Mas, body: string): (r: Mas)
    decreases |body|
  {
    if body == "" then s
    else
      var s1 := Pushed(s, body[0]);
      if ReachedStop(c, s1) then s1 else PushUntilStop(c, s1, body[1..])
  }

  /** nx_keycode_handle_complete_keycode() */
  function CompleteCode(c: Config, s: Mas, keys: string, length: U8): (r: (Mas, Effect))
    requires Readable(c, keys, length)
  {
    if Limited(c, s) || keys[0] != c.Start() then (s, MessageInvalid)
    else Finished(c, PushUntilStop(c, Reset(s.(startSeen := true)), BodyOf(c, keys, length)))
  }

  // ---------------------------------------------------------------- time and power

  function BookendProcess(c: Config, s: Mas, uptime: U32): (r: Mas) {
    if !s.startSeen then s
    else
      var latest := if s.latest == UINT32_MAX then uptime else s.latest;
      if (uptime - latest) % 0x1_0000_0000 > c.timeout then Reset(s.(latest := latest, startSeen := false))
      else s.(latest := latest)
  }

  function Process(c: Config, s: Mas, dt: U32, uptime: U32): (r: Mas)
    requires c.Valid()
  {
    var bucket := AddTime(c, s.bucket, dt);
    GraceFits(c, bucket);
    var grace := GraceCount(c, bucket);
    BookendProcess(c, s.(bucket := bucket, grace := grace, nv := if grace == s.grace then s.nv else Some(grace)), uptime)
  }

  lemma GraceFits(c: Config, bucket: U32)
    requires c.Valid()
    ensures GraceCount(c, bucket) < 0x100
  {
    if c.bucketMax > 0 { GraceCountMeaning(c, bucket); }
  }

  /** What init makes of nonvolatile memory: the bucket holds the stored grace codes. */
  function Init(c: Config, nv: Option<U8>): (r: Mas)
    requires c.Valid()
  {
    var grace: int := if nv.Some? then nv.value else c.initialCount;
    Products(grace, 255, c.refill, 3600);
    Mas(grace, nv, "", false, grace * c.refill, false, 0)
  }

  /** After power-up no frame is open, and the bucket holds the stored grace codes, or the initial count if none are stored. */
  lemma PowerUpMeaning(c: Config, nv: Option<U8>, key: char)
    requires c.Valid() && key != c.Start()
    ensures var s := Init(c, nv);
      && s.grace == (if nv.Some? then nv.value else c.initialCount) && s.bucket == s.grace * c.refill && s.nv == nv
      && s.partial == "" && PressKey(c, s, key) == (s.(latest := UINT32_MAX), KeyRejected)
  {
  }

  ghost predicate Inv(c: Config, s: Mas) {
    && c.Valid() && |s.partial| <= MAX_MESSAGE_LENGTH
    && s.grace == (if s.nv.Some? then s.nv.value else c.initialCount)
  }

  // ---------------------------------------------------------------- two ways to enter a code

  /** Keys one by one: the state afterwards and the frames given to the handler. */
  function PressAll(c: Config, s: Mas, keys: string): (r: (Mas, seq<string>))
    decreases |keys|
  {
    if keys == "" then (s, [])
    else
      var (s1, e) := PressKey(c, s, keys[0]);
      var (s2, frames) := PressAll(c, s1, keys[1..]);
      (s2, if e.Handled? then [e.frame] + frames else frames)
  }

  function FramesOf(e: Effect): (r: seq<string>) {
    if e.Handled? then [e.frame] else []
  }

  /** Equal except for the time of the last key. */
  predicate Same(a: Mas, b: Mas) {
    a == b.(latest := a.latest)
  }

  predicate PlainBody(c: Config, body: string) {
    c.Start() !in body && c.End() !in body
  }

  function KeysOf(c: Config, body: string): (r: string) {
    [c.Start()] + body + if c.small then "" else [c.End()]
  }

  lemma {:induction false} PressConcat(c: Config, s: Mas, a: string, b: string)
    ensures var (s1, f1) := PressAll(c, s, a); var (s2, f2) := PressAll(c, s1, b); PressAll(c, s, a + b) == (s2, f1 + f2)
    decreases |a|
  {
    hide PressKey;
    if a == "" {
      var f2 := PressAll(c, s, b).1;
      assert a + b == b && [] + f2 == f2;
    } else {
      PressConcat(c, PressKey(c, s, a[0]).0, a[1..], b);
      assert (a + b)[1..] == a[1..] + b;
      var (s1, e) := PressKey(c, s, a[0]);
      var (s2, f1) := PressAll(c, s1, a[1..]);
      var f2 := PressAll(c, s2, b).1;
      assert FramesOf(e) + (f1 + f2) == FramesOf(e) + f1 + f2;
    }
  }

  /** Without a start key, keys outside a message do nothing; nor does any key while limited. */
  lemma {:induction false} IdleKeys(c: Config, s: Mas, keys: string)
    requires Limited(c, s) || (!s.startSeen && c.Start() !in keys)
    ensures Same(PressAll(c, s, keys).0, s) && PressAll(c, s, keys).1 == []
    decreases |keys|
  {
    if keys != "" {
      IdleKeys(c, PressKey(c, s, keys[0]).0, keys[1..]);
    }
  }

  /** Keys of a body either fill the frame up to the stop length, which ends it, or are just stored. */
  lemma {:induction false} BodyKeys(c: Config, s: Mas, body: string)
    requires s.startSeen && !Limited(c, s) && PlainBody(c, body) && !ReachedStop(c, s)
    ensures var (s', frames) := PressAll(c, s, body); var pushed := PushUntilStop(c, s, body);
      if ReachedStop(c, pushed) then Same(s', Finished(c, pushed).0) && frames == FramesOf(Finished(c, pushed).1)
      else Same(s', pushed) && frames == []
    decreases |body|
  {
    if body != "" {
      var s1 := PressKey(c, s, body[0]).0;
      var p1 := Pushed(s, body[0]);
      if ReachedStop(c, p1) {
        IdleKeys(c, s1, body[1..]);
      } else {
        BodyKeys(c, s1, body[1..]);
        SamePushes(c, s1, p1, body[1..]);
      }
    }
  }

  lemma {:induction false} SamePushes(c: Config, a: Mas, b: Mas, body: string)
    requires Same(a, b)
    ensures Same(PushUntilStop(c, a, body), PushUntilStop(c, b, body))
    decreases |body|
  {
    if body != "" {
      SamePushes(c, Pushed(a, body[0]), Pushed(b, body[0]), body[1..]);
    }
  }

  lemma {:induction false} StopNeedsBody(c: Config, s: Mas, body: string)
    requires !ReachedStop(c, s) && |s.partial| <= MAX_MESSAGE_LENGTH
    ensures ReachedStop(c, PushUntilStop(c, s, body)) <==> c.small && |s.partial| + |body| >= c.StopLength()
    ensures var p := PushUntilStop(c, s, body); p.startSeen == s.startSeen && p.bucket == s.bucket
    decreases |body|
  {
    if body != "" && !ReachedStop(c, Pushed(s, body[0])) {
      StopNeedsBody(c, Pushed(s, body[0]), body[1..]);
    }
  }

  lemma BodyOfKeys(c: Config, body: string)
    requires |body| <= 250
    ensures var keys := KeysOf(c, body);
      keys[0] == c.Start() && Readable(c, keys, |keys|) && BodyOf(c, keys, |keys|) == body
  {
  }

  /** Both ways give the handler the same frame and leave the same state. */
  ghost predicate PathsAgree(c: Config, s: Mas, body: string)
    requires |body| <= 250
  {
    var (a, frames) := PressAll(c, s, KeysOf(c, body));
    var (b, e) := CompleteCode(c, s, KeysOf(c, body), |KeysOf(c, body)|);
    Same(a, b) && frames == FramesOf(e)
  }

  /**
   * Entering a code key by key and all at once agree from every state for the full protocol; for the
   * small one, exactly when the device is limited or the body has the 14 keys that end a frame.
   */
  lemma PathsAgreeIff(c: Config, s: Mas, body: string)
    requires PlainBody(c, body) && |body| <= 250
    ensures PathsAgree(c, s, body) <==> !c.small || Limited(c, s) || |body| >= c.StopLength()
  {
    var keys := KeysOf(c, body);
    BodyOfKeys(c, body);
    if Limited(c, s) {
      IdleKeys(c, s, keys);
    } else {
      var s1 := PressKey(c, s, c.Start()).0;
      var started := Reset(s.(startSeen := true));
      var pushed := PushUntilStop(c, started, body);
      assert keys[1..] == body + if c.small then "" else [c.End()];
      PressConcat(c, s1, body, if c.small then "" else [c.End()]);
      BodyKeys(c, s1, body);
      SamePushes(c, s1, started, body);
      StopNeedsBody(c, started, body);
      var s2 := PressAll(c, s1, body).0;
      if !c.small {
        assert PressAll(c, s2, [c.End()]).0 == PressKey(c, s2, c.End()).0;
      }
    }
  }

  // ---------------------------------------------------------------- the frames that are handed over

  /** The frame holds the keys entered, in order, as far as it has room. */
  lemma {:induction false} PushedKeys(c: Config, s: Mas, body: string)
    requires !ReachedStop(c, s) && |s.partial| <= MAX_MESSAGE_LENGTH
    ensures var p, all, room := PushUntilStop(c, s, body), s.partial + body, if c.small then 14 else 30;
      && p.partial == (if |all| <= room then all else all[..room])
      && (p.exceeded <==> s.exceeded || (!c.small && |all| > 30))
    decreases |body|
  {
    if body == "" {
      assert s.partial + body == s.partial;
    } else {
      var s1 := Pushed(s, body[0]);
      assert (s.partial + [body[0]]) + body[1..] == s.partial + body;
      if ReachedStop(c, s1) {
        assert s1.partial == (s.partial + body)[..14];
      } else {
        PushedKeys(c, s1, body[1..]);
        if |s.partial| == 30 {
          assert (s.partial + body[1..])[..30] == (s.partial + body)[..30];
        }
      }
    }
  }

  /**
   * Whatever came before, a device that is not limited is given what is entered behind a start key, key by key: in
   * the full protocol the whole body, if it has 1 to 30 keys; in the small one the first 14 keys of it.
   */
  lemma FramesEntered(c: Config, s: Mas, body: string)
    requires PlainBody(c, body) && !Limited(c, s)
    ensures PressAll(c, s, KeysOf(c, body)).1 ==
      if c.small then (if |body| >= 14 then [body[..14]] else [])
      else if 1 <= |body| <= 30 then [body] else []
  {
    var s1 := PressKey(c, s, c.Start()).0;
    var end := if c.small then "" else [c.End()];
    var (s2, frames) := PressAll(c, s1, body);
    assert KeysOf(c, body)[1..] == body + end;
    assert PressAll(c, s, KeysOf(c, body)).1 == PressAll(c, s1, body + end).1;
    PressConcat(c, s1, body, end);
    BodyKeys(c, s1, body);
    StopNeedsBody(c, s1, body);
    PushedKeys(c, s1, body);
    assert "" + body == body;
    hide PushUntilStop;
    if c.small {
      assert PressAll(c, s2, end).1 == [] && frames + [] == frames;
      assert |body| == 14 ==> body[..14] == body;
    } else {
      hide PressAll;
      EndKeyFrame(c, s2);
      assert |body| > 30 ==> body[..30] != "";
      assert [] + PressAll(c, s2, end).1 == PressAll(c, s2, end).1;
    }
  }

  lemma EndKeyFrame(c: Config, s: Mas)
    requires !c.small && s.startSeen && !Limited(c, s)
    ensures PressAll(c, s, [c.End()]).1 == if s.partial != "" && !s.exceeded then [s.partial] else []
  {
    assert [c.End()][1..] == "";
    assert forall f: string :: [f] + [] == [f];
  }

  /** A whole code hands over its body, or its first 14 keys in the small protocol; nothing if it is empty or too long. */
  lemma FrameOfCompleteCode(c: Config, s: Mas, body: string)
    requires PlainBody(c, body) && |body| <= 250 && !Limited(c, s)
    ensures var e := CompleteCode(c, s, KeysOf(c, body), |KeysOf(c, body)|).1;
      e == if body == "" || (!c.small && |body| > 30) then MessageInvalid
           else Handled(if c.small && |body| > 14 then body[..14] else body)
  {
    BodyOfKeys(c, body);
    PushedKeys(c, Reset(s.(startSeen := true)), body);
    assert "" + body == body;
    hide PushUntilStop;
  }

  /** A limited device is given nothing, either way, and every key is rejected. */
  lemma LimitedTakesNothing(c: Config, s: Mas, keys: string, length: U8)
    requires Limited(c, s) && Readable(c, keys, length)
    ensures PressAll(c, s, keys).1 == [] && Same(PressAll(c, s, keys).0, s)
    ensures CompleteCode(c, s, keys, length) == (s, MessageInvalid)
  {
    IdleKeys(c, s, keys);
  }

  /** Keys are rejected exactly on a limited device and, but for the start key, outside a frame. */
  lemma RejectedIff(c: Config, s: Mas, key: char)
    ensures PressKey(c, s, key).1 == KeyRejected <==> Limited(c, s) || (!s.startSeen && key != c.Start())
  {
  }

  // ---------------------------------------------------------------- conservation

  datatype Event = Key(key: char) | Complete(keys: string, length: U8) | Elapse(dt: U32, uptime: U32) | PowerCycle

  predicate Enabled(c: Config, e: Event) {
    e.Complete? ==> Readable(c, e.keys, e.length)
  }

  /** The state after an event, and whether it finished a frame. */
  function Next(c: Config, s: Mas, e: Event): (r: (Mas, bool))
    requires c.Valid() && Enabled(c, e)
  {
    match e
    case Key(key) => var (s', r) := PressKey(c, s, key); (s', r.Handled? || r.MessageInvalid?)
    case Complete(keys, length) => (CompleteCode(c, s, keys, length).0, !Limited(c, s) && keys[0] == c.Start())
    case Elapse(dt, uptime) => (Process(c, s, dt, uptime), false)
    case PowerCycle => (Init(c, s.nv), false)
  }

  lemma {:induction false} PushesKeepRest(c: Config, s: Mas, body: string)
    ensures var s' := PushUntilStop(c, s, body); s'.bucket == s.bucket && s'.grace == s.grace && s'.nv == s.nv
    decreases |body|
  {
    if body != "" { PushesKeepRest(c, Pushed(s, body[0]), body[1..]); }
  }

  /** A finished frame always costs a full attempt, and nothing but time and power cycles fills the bucket. */
  lemma NextBucket(c: Config, s: Mas, e: Event)
    requires c.Valid() && c.bucketMax > 0 && Enabled(c, e)
    ensures var (s', finished) := Next(c, s, e);
      match e
      case Elapse(dt, _) => s'.bucket == Min(c.Cap(), s.bucket + dt)
      case PowerCycle => s'.bucket == s'.grace * c.refill
      case _ => s'.bucket == s.bucket - if finished then c.refill else 0
  {
    if e.Complete? {
      PushesKeepRest(c, Reset(s.(startSeen := true)), BodyOf(c, e.keys, e.length));
    }
  }

  /** The stored count is the one in RAM after every event; process() alone changes it, to what the bucket holds. */
  lemma NextGrace(c: Config, s: Mas, e: Event)
    requires Inv(c, s) && c.bucketMax > 0 && Enabled(c, e)
    ensures var s' := Next(c, s, e).0;
      && Inv(c, s')
      && if e.Elapse? then s'.grace == GraceCount(c, s'.bucket) && s'.grace * c.refill <= s'.bucket else s'.grace == s.grace
  {
    match e
    case Key(key) =>
    case Complete(keys, length) => PushesKeepRest(c, Reset(s.(startSeen := true)), BodyOf(c, keys, length));
    case Elapse(dt, _) =>
      GraceFits(c, AddTime(c, s.bucket, dt));
      GraceCountMeaning(c, AddTime(c, s.bucket, dt));
    case PowerCycle =>
  }

  ghost predicate AllEnabled(c: Config, es: seq<Event>) {
    forall i :: 0 <= i < |es| ==> Enabled(c, es[i])
  }

  /**
   * A run's account: the frames finished, those finished since the last process() or power cycle, those
   * a power cycle forgot because process() had not run since, and the time that passed.
   */
  datatype Account = Account(mas: Mas, finished: nat, unsaved: nat, forgotten: nat, time: nat)

  function Booked(c: Config, a: Account, e: Event): (r: Account)
    requires c.Valid() && Enabled(c, e)
  {
    var (s, now) := Next(c, a.mas, e);
    var one := if now then 1 else 0;
    match e
    case Elapse(dt, _) => Account(s, a.finished, 0, a.forgotten, a.time + dt)
    case PowerCycle => Account(s, a.finished, 0, a.forgotten + a.unsaved, a.time)
    case _ => Account(s, a.finished + one, a.unsaved + one, a.forgotten, a.time)
  }

  function Run(c: Config, s: Mas, es: seq<Event>): (r: Account)
    requires c.Valid() && AllEnabled(c, es)
  {
    if es == [] then Account(s, 0, 0, 0, 0) else Booked(c, Run(c, s, es[..|es| - 1]), es[|es| - 1])
  }

  /** The account balances against a starting bucket, and the bucket covers the stored grace codes up to unsaved frames. */
  ghost predicate Balanced(c: Config, start: nat, a: Account) {
    && Inv(c, a.mas) && a.forgotten + a.unsaved <= a.finished
    && (a.finished - a.forgotten) * c.refill + a.mas.bucket <= start + a.time
    && a.mas.grace * c.refill <= a.mas.bucket + a.unsaved * c.refill
    && a.mas.bucket <= Max(start, c.Cap()) && a.mas.grace * c.refill <= Max(start, c.Cap())
  }

  lemma Attempt(n: nat, refill: nat)
    ensures (n + 1) * refill == n * refill + refill
  {
  }

  lemma Paid(finished: nat, unsaved: nat, refill: nat)
    requires unsaved <= finished
    ensures (finished - unsaved) * refill == finished * refill - unsaved * refill
  {
  }

  lemma BookedBalances(c: Config, start: nat, a: Account, e: Event)
    requires c.bucketMax > 0 && Enabled(c, e) && Balanced(c, start, a)
    ensures Balanced(c, start, Booked(c, a, e))
  {
    NextBucket(c, a.mas, e);
    NextGrace(c, a.mas, e);
    var paid: nat, unsaved: nat, refill: nat := a.finished - a.forgotten, a.unsaved, c.refill;
    Attempt(paid, refill);
    Attempt(unsaved, refill);
    Paid(paid, unsaved, refill);
    hide Next, Inv, GraceCount;
    var a' := Booked(c, a, e);
    match e
    case Elapse(dt, _) =>
      assert a'.finished - a'.forgotten == paid;
    case PowerCycle =>
      assert a'.finished - a'.forgotten == paid - unsaved;
    case _ =>
      assert a'.finished - a'.forgotten == paid || a'.finished - a'.forgotten == paid + 1;
  }

  /**
   * Rate limiting over any run of keys, codes, time and power cycles: what was spent and what is left
   * never exceed what was there and what time added, but for frames a power cycle forgot before process()
   * could store their cost; and the bucket never exceeds its cap once it is within it.
   */
  lemma {:induction false} AttemptsArePaidFor(c: Config, s: Mas, es: seq<Event>)
    requires Inv(c, s) && c.bucketMax > 0 && s.grace * c.refill <= s.bucket && AllEnabled(c, es)
    ensures Balanced(c, s.bucket, Run(c, s, es))
    ensures var a := Run(c, s, es);
      && (a.finished - a.forgotten) * c.refill + a.mas.bucket <= s.bucket + a.time
      && a.mas.bucket <= Max(s.bucket, c.Cap())
  {
    if es == [] {
      assert Balanced(c, s.bucket, Account(s, 0, 0, 0, 0));
    } else {
      hide Booked, Inv;
      var before := es[..|es| - 1];
      AttemptsArePaidFor(c, s, before);
      assert Balanced(c, s.bucket, Run(c, s, before));
      BookedBalances(c, s.bucket, Run(c, s, before), es[|es| - 1]);
    }
  }

  /** No frame is forgotten when every power cycle comes right after a process(). */
  lemma {:induction false} NothingForgotten(c: Config, s: Mas, es: seq<Event>)
    requires c.Valid() && AllEnabled(c, es)
    requires forall i :: 0 <= i < |es| && es[i].PowerCycle? ==> i == 0 || es[i - 1].Elapse?
    ensures Run(c, s, es).forgotten == 0
    ensures es == [] || es[|es| - 1].Elapse? ==> Run(c, s, es).unsaved == 0
  {
    hide Next;
    if es != [] {
      NothingForgotten(c, s, es[..|es| - 1]);
    }
  }

  /** Power-up stays within the cap exactly when no more grace codes are stored than the bucket holds. */
  lemma PowerUpWithinCapIff(c: Config, nv: Option<U8>)
    requires c.Valid() && c.bucketMax > 0
    ensures Init(c, nv).bucket <= c.Cap() <==> Init(c, nv).grace <= c.bucketMax
  {
    var grace: int, max: int := Init(c, nv).grace, c.bucketMax;
    if grace <= max {
      Products(grace, max, c.refill, c.refill);
    } else {
      Products(max + 1, grace, c.refill, c.refill);
    }
  }

  /** A power cycle leaves what the stored grace codes are worth: it raises the bucket exactly when that is more. */
  lemma PowerCycleIsWorth(c: Config, s: Mas)
    requires Inv(c, s)
    ensures Init(c, s.nv).bucket == s.grace * c.refill && Init(c, s.nv).grace == s.grace
    ensures Init(c, s.nv).bucket > s.bucket <==> s.grace * c.refill > s.bucket
  {
  }

  /** Right after process() a power cycle never raises the bucket, and the invariant holds. */
  lemma PowerCycleAfterProcess(c: Config, s: Mas, dt: U32, uptime: U32)
    requires Inv(c, s) && c.bucketMax > 0
    ensures var s' := Process(c, s, dt, uptime); Inv(c, s') && Init(c, s'.nv).bucket <= s'.bucket <= c.Cap()
  {
    var s' := Process(c, s, dt, uptime);
    GraceFits(c, AddTime(c, s.bucket, dt));
    GraceCountMeaning(c, s'.bucket);
    PowerCycleIsWorth(c, s');
  }

  /**
   * Entry is given up exactly when more than the timeout passes between the first process() after a key
   * and a later one without a key between, also across a wrap of the uptime, unless the first process()
   * runs at uptime UINT32_MAX: that number marks a key not timed yet, so the next process() starts over.
   */
  lemma EntryTimesOutIff(c: Config, s: Mas, key: char, first: U32, later: U32)
    requires PressKey(c, s, key).0.startSeen
    ensures var waiting := BookendProcess(c, PressKey(c, s, key).0, first); var s' := BookendProcess(c, waiting, later);
      && waiting.startSeen && waiting.partial == PressKey(c, s, key).0.partial
      && (s'.startSeen <==> first == UINT32_MAX || (later - first) % 0x1_0000_0000 <= c.timeout)
      && s' == if s'.startSeen then waiting.(latest := if first == UINT32_MAX then later else first)
               else Reset(waiting.(startSeen := false))
  {
  }

  /**
   * With any timeout up to 0x8000_0000 s: after a start key and a process() at the last uptime, entry is
   * still open half the range of the clock later.
   */
  lemma NotTimedAtTop(c: Config, s: Mas)
    requires c.timeout <= 0x8000_0000 && !Limited(c, s)
    ensures var waiting := BookendProcess(c, PressKey(c, s, c.Start()).0, UINT32_MAX);
      var later: U32 := 0x8000_0000;
      (later - UINT32_MAX) % 0x1_0000_0000 > c.timeout && BookendProcess(c, waiting, later).startSeen
  {
    EntryTimesOutIff(c, s, c.Start(), UINT32_MAX, 0x8000_0000);
  }
}
