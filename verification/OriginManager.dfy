/** Applying origin commands: each command id of the window is used at most once, whatever happens. */
module OriginManager {
  import opened Prelude
  import opened Window
  import opened OriginCommand
  import L = Links

  const WINDOW_BEFORE_CENTER: U8 := 31
  const WINDOW_AFTER_CENTER: U8 := 8

  /** The lowest 32 bits of the check value of some bytes under the origin key. */
  type Check = seq<U8> -> U32

  function BytesToAuth(m: Message, id: U32): (r: seq<U8>) {
    Le32(id) + [m.type_] + Le32(m.body)
  }

  const UNLOCK: Digit := 1
  const UNLINK: Digit := 2

  /** The accessories that unlock and unlink commands can mean; the list is fixed in the code. */
  const ACCESSORIES: seq<L.NxId> := [L.NxId(0x0111, 0x92873891), L.NxId(0x0102, 0x94837158), L.NxId(0x9041, 0x00000019)]

  function AccessoryBytes(m: Message, id: U32, accessory: L.NxId): (r: seq<U8>) {
    var authority := accessory.authorityId;
    Le32(id) + [m.type_] + [authority % 0x100, authority / 0x100] + Le32(accessory.deviceId)
  }

  /** The command's one body digit is the last one of the accessory's id, and the MAC is right for it. */
  predicate Means(check: Check, m: Message, id: U32, accessory: L.NxId) {
    accessory.deviceId % 10 == m.body && check(AccessoryBytes(m, id, accessory)) % 1000000 == m.auth
  }

  /** Whether a message carries the MAC it has under a command id. */
  predicate Authentic(check: Check, m: Message, id: U32) {
    if m.type_ == UNLOCK || m.type_ == UNLINK then exists k :: 0 <= k < |ACCESSORIES| && Means(check, m, id, ACCESSORIES[k])
    else (m.type_ == 0 || m.type_ == 9) && check(BytesToAuth(m, id)) % 1000000 == m.auth
  }

  /** Command id and type, and then the rest, as they are laid out for the MAC. */
  ghost predicate IsLaidOut(bytes: seq<U8>, id: U32, type_: Digit, rest: seq<U8>) {
    |bytes| >= 5 && LeValue(bytes[..4]) == id && bytes[4] == type_ && bytes[5..] == rest
  }

  ghost predicate IsActionLayout(m: Message, id: U32, bytes: seq<U8>, rest: seq<U8>) {
    |rest| == 4 && LeValue(rest) == m.body && IsLaidOut(bytes, id, m.type_, rest)
  }

  ghost predicate IsAccessoryLayout(m: Message, id: U32, accessory: L.NxId, bytes: seq<U8>, rest: seq<U8>) {
    && |rest| == 6 && LeValue(rest[..2]) == accessory.authorityId && LeValue(rest[2..]) == accessory.deviceId
    && IsLaidOut(bytes, id, m.type_, rest)
  }

  ghost predicate AuthenticatesAction(check: Check, m: Message, id: U32) {
    exists bytes: seq<U8>, rest: seq<U8> :: IsActionLayout(m, id, bytes, rest) && check(bytes) % 1000000 == m.auth
  }

  ghost predicate AuthenticatesAccessory(check: Check, m: Message, id: U32, accessory: L.NxId) {
    exists bytes: seq<U8>, rest: seq<U8> ::
      IsAccessoryLayout(m, id, accessory, bytes, rest) && check(bytes) % 1000000 == m.auth
  }

  /**
   * A command's six MAC digits are right when they are the last decimal digits of the check value of its id, its type and
   * its body or, for unlock and unlink, the whole id of a listed accessory that ends in the body digit.
   */
  lemma AuthenticMeaning(check: Check, m: Message, id: U32)
    ensures Authentic(check, m, id) <==>
      if m.type_ == 1 || m.type_ == 2 then
        exists a :: a in ACCESSORIES && a.deviceId % 10 == m.body && AuthenticatesAccessory(check, m, id, a)
      else (m.type_ == 0 || m.type_ == 9) && AuthenticatesAction(check, m, id)
  {
    ActionBytes(check, m, id);
    forall a: L.NxId ensures Means(check, m, id, a) <==> a.deviceId % 10 == m.body && AuthenticatesAccessory(check, m, id, a) {
      AccessoryBytesAre(check, m, id, a);
    }
    hide AuthenticatesAction, AuthenticatesAccessory, Means, BytesToAuth;
    if m.type_ == 1 || m.type_ == 2 {
      if k :| 0 <= k < |ACCESSORIES| && Means(check, m, id, ACCESSORIES[k]) { assert ACCESSORIES[k] in ACCESSORIES; }
      if a :| a in ACCESSORIES && a.deviceId % 10 == m.body && AuthenticatesAccessory(check, m, id, a) {
        var k :| 0 <= k < |ACCESSORIES| && ACCESSORIES[k] == a;
        assert Means(check, m, id, ACCESSORIES[k]);
      }
    }
  }

  lemma ActionBytes(check: Check, m: Message, id: U32)
    ensures AuthenticatesAction(check, m, id) <==> check(BytesToAuth(m, id)) % 1000000 == m.auth
  {
    Le32Meaning(id);
    Le32Meaning(m.body);
    var own := BytesToAuth(m, id);
    assert own[..4] == Le32(id) && own[5..] == Le32(m.body);
    hide Le32, LeValue, BytesToAuth;
    if bytes: seq<U8>, rest: seq<U8> :| IsActionLayout(m, id, bytes, rest) && check(bytes) % 1000000 == m.auth {
      LeValueInjective(rest, Le32(m.body));
      LeValueInjective(bytes[..4], Le32(id));
      SameLayout(bytes, own);
    }
    assert IsActionLayout(m, id, own, Le32(m.body)) by { OwnType(m, id); }
  }

  lemma OwnType(m: Message, id: U32)
    ensures |BytesToAuth(m, id)| == 9 && BytesToAuth(m, id)[4] == m.type_
  {
  }

  lemma SameLayout(a: seq<U8>, b: seq<U8>)
    requires |a| >= 5 && |b| >= 5 && a[..4] == b[..4] && a[4] == b[4] && a[5..] == b[5..]
    ensures a == b
  {
    assert a == a[..4] + [a[4]] + a[5..] && b == b[..4] + [b[4]] + b[5..];
  }

  lemma AccessoryBytesAre(check: Check, m: Message, id: U32, a: L.NxId)
    ensures AuthenticatesAccessory(check, m, id, a) <==> check(AccessoryBytes(m, id, a)) % 1000000 == m.auth
  {
    Le32Meaning(id);
    Le32Meaning(a.deviceId);
    var own := AccessoryBytes(m, id, a);
    var rest' := own[5..];
    assert own[..4] == Le32(id) && own[4] == m.type_ && |rest'| == 6 && rest'[2..] == Le32(a.deviceId);
    LeValueOfTwo(rest'[..2]);
    assert rest'[0] == a.authorityId % 0x100 && rest'[1] == a.authorityId / 0x100;
    assert LeValue(rest'[..2]) == a.authorityId;
    hide Le32, LeValue, AccessoryBytes;
    if bytes: seq<U8>, rest: seq<U8> :| IsAccessoryLayout(m, id, a, bytes, rest) && check(bytes) % 1000000 == m.auth {
      LeValueInjective(rest[..2], rest'[..2]);
      LeValueInjective(rest[2..], rest'[2..]);
      LeValueInjective(bytes[..4], Le32(id));
      assert rest == rest[..2] + rest[2..] && rest' == rest'[..2] + rest'[2..];
      SameLayout(bytes, own);
    }
    assert IsAccessoryLayout(m, id, a, own, rest');
  }

  /** The bytes a MAC is made of tell id, type and body apart, and commands on accessories from other ones. */
  lemma AuthenticatedBytesTellApart(m: Message, id: U32, m': Message, id': U32, a: L.NxId, a': L.NxId)
    ensures BytesToAuth(m, id) == BytesToAuth(m', id') ==> id == id' && m.type_ == m'.type_ && m.body == m'.body
    ensures AccessoryBytes(m, id, a) == AccessoryBytes(m', id', a') ==> id == id' && m.type_ == m'.type_ && a == a'
    ensures BytesToAuth(m, id) != AccessoryBytes(m', id', a')
  {
    var x, y, p, q := BytesToAuth(m, id), BytesToAuth(m', id'), AccessoryBytes(m, id, a), AccessoryBytes(m', id', a');
    assert |x| == |y| == 9 && |p| == |q| == 11;
    if x == y {
      assert x[..4] == Le32(id) && y[..4] == Le32(id') && x[4] == m.type_ && y[4] == m'.type_;
      assert x[5..] == Le32(m.body) && y[5..] == Le32(m'.body);
      Le32Injective(id, id');
      Le32Injective(m.body, m'.body);
    }
    if p == q {
      assert p[..4] == Le32(id) && q[..4] == Le32(id') && p[4] == m.type_ && q[4] == m'.type_;
      assert p[7..] == Le32(a.deviceId) && q[7..] == Le32(a'.deviceId);
      assert p[5] == a.authorityId % 0x100 && q[5] == a'.authorityId % 0x100;
      assert p[6] == a.authorityId / 0x100 && q[6] == a'.authorityId / 0x100;
      Le32Injective(id, id');
      Le32Injective(a.deviceId, a'.deviceId);
    }
  }

  /** _nexus_channel_om_ascii_message_infer_inner_compute_auth(): the verdict and the accessory that is meant. */
  method InferInnerComputeAuth(check: Check, m: Message, id: U32) returns (success: bool, accessory: Option<L.NxId>)
    ensures success == Authentic(check, m, id)
    ensures accessory.Some? <==> success && (m.type_ == UNLOCK || m.type_ == UNLINK)
    ensures accessory.Some? ==> accessory.value in ACCESSORIES && Means(check, m, id, accessory.value)
    ensures accessory.Some? ==> forall other :: other in ACCESSORIES && Means(check, m, id, other) ==> other == accessory.value
  {
    success, accessory := false, None;
    if m.type_ == 0 || m.type_ == 9 {
      success := check(BytesToAuth(m, id)) % 1000000 == m.auth;
    } else if m.type_ == UNLOCK || m.type_ == UNLINK {
      var accessoryCount := |ACCESSORIES|;
      while accessoryCount > 0
        invariant 0 <= accessoryCount <= |ACCESSORIES| && (success <==> accessory.Some?)
        invariant success <==> exists k :: accessoryCount <= k < |ACCESSORIES| && Means(check, m, id, ACCESSORIES[k])
        invariant success ==> accessory.value in ACCESSORIES && Means(check, m, id, accessory.value)
      {
        accessoryCount := accessoryCount - 1;
        var candidate := ACCESSORIES[accessoryCount];
        if candidate.deviceId % 10 != m.body {
          continue;
        }
        if check(AccessoryBytes(m, id, candidate)) % 1000000 == m.auth {
          success, accessory := true, Some(candidate);
        }
      }
      if success { OneIsMeant(check, m, id, accessory.value); }
    }
  }

  /** The listed ids end in different digits, so a command means one of them at most. */
  lemma OneIsMeant(check: Check, m: Message, id: U32, accessory: L.NxId)
    requires accessory in ACCESSORIES && Means(check, m, id, accessory)
    ensures forall other :: other in ACCESSORIES && Means(check, m, id, other) ==> other == accessory
  {
    hide AccessoryBytes;
    assert ACCESSORIES[0].deviceId % 10 == 7 && ACCESSORIES[1].deviceId % 10 == 0 && ACCESSORIES[2].deviceId % 10 == 5;
  }

  function IdCheck(check: Check, m: Message): (r: U32 -> bool) {
    (id: U32) => Authentic(check, m, id)
  }

  datatype Store = Store(window: Window, nv: Option<Window>)

  function InitialWindow(): (r: Window) {
    Blank(WINDOW_BEFORE_CENTER, WINDOW_AFTER_CENTER)
  }

  /** nexus_channel_om_init() */
  function Init(nv: Option<Window>): (r: Store) {
    Store(if nv.Some? then nv.value else InitialWindow(), nv)
  }

  ghost predicate Inv(s: Store) {
    && Formed(s.window) && s.window.below == WINDOW_BEFORE_CENTER && s.window.above == WINDOW_AFTER_CENTER
    && s.window.center >= WINDOW_BEFORE_CENTER
    && (if s.nv.Some? then s.nv.value == s.window else s.window == InitialWindow())
  }

  datatype Applied = Applied(id: U32) | NotApplied

  /** apply_message(); accepted tells whether the core takes the message. */
  function Apply(check: Check, s: Store, m: Message, accepted: bool): (r: (Store, Applied))
    requires Inv(s)
  {
    var w := if s.nv.Some? then s.nv.value else s.window;
    var id := Least(w, IdCheck(check, m));
    if id.None? || !accepted then (s, NotApplied)
    else
      var w' := SetId(w, id.value).0;
      (Store(w', Some(w')), Applied(id.value))
  }

  class OriginManager {
    const window: IdWindow
    var nvBlock: Option<Window>

    ghost function State(): (r: Store)
      reads this, window, window.flags
    {
      Store(window.Value(), nvBlock)
    }

    constructor (nv: Option<Window>)
      requires Inv(Init(nv))
      ensures State() == Init(nv) && fresh(window) && fresh(window.flags)
    {
      window := new IdWindow(WINDOW_BEFORE_CENTER, WINDOW_BEFORE_CENTER, WINDOW_AFTER_CENTER);
      nvBlock := nv;
      new;
      ReadStored();
    }

    method ReadStored()
      requires Formed(window.Value())
      requires nvBlock.Some? ==> Formed(nvBlock.value) && nvBlock.value.below == window.flagsBelow && nvBlock.value.above == window.flagsAbove
      modifies window`centerIndex, window.flags
      ensures window.Value() == if nvBlock.Some? then nvBlock.value else old(window.Value())
    {
      if nvBlock.Some? {
        window.Load(nvBlock.value);
      }
    }

    /** infer_fields_compute_auth(): the lowest unused id of the window that matches the MAC. */
    method InferCommandId(check: Check, m: Message) returns (id: Option<U32>)
      requires Formed(window.Value())
      ensures id == Least(window.Value(), IdCheck(check, m))
    {
      id := window.SearchUp(IdCheck(check, m));
    }

    /** _nexus_channel_om_ascii_apply_message() */
    method ApplyMessage(check: Check, m: Message, accepted: bool) returns (r: Applied)
      requires Inv(State())
      modifies this, window`centerIndex, window.flags
      ensures (State(), r) == Apply(check, old(State()), m, accepted)
    {
      ReadStored();
      assert State() == old(State());
      var id := InferCommandId(check, m);
      if id.None? || !accepted {
        return NotApplied;
      }
      var _ := window.SetIdFlag(id.value);
      nvBlock := Some(Window(window.centerIndex, window.flags[..], window.flagsBelow, window.flagsAbove));
      r := Applied(id.value);
    }
  }

  // ---------------------------------------------------------------- runs

  datatype Event = Command(m: Message, accepted: bool) | Restart

  function Next(check: Check, s: Store, e: Event): (r: (Store, Applied))
    requires Inv(s)
  {
    if e.Restart? then (Init(s.nv), NotApplied) else Apply(check, s, e.m, e.accepted)
  }

  /** What one event keeps: the invariant, every consumed id, and the center's direction. */
  lemma NextKeeps(check: Check, s: Store, e: Event, id: U32)
    requires Inv(s)
    ensures var (s', r) := Next(check, s, e);
      && Inv(s') && s'.window.center >= s.window.center
      && (Consumed(s.window, id) ==> Consumed(s'.window, id))
      && (r.Applied? ==> !Consumed(s.window, r.id) && Consumed(s'.window, r.id))
  {
    if e.Command? && Least(s.window, IdCheck(check, e.m)).Some? {
      var chosen := Least(s.window, IdCheck(check, e.m)).value;
      LeastIsFresh(s.window, IdCheck(check, e.m));
      SetIdMarks(s.window, chosen, id);
    }
  }

  /** The state after a run and the command ids it applied, in order. */
  ghost function Run(check: Check, s: Store, es: seq<Event>): (r: (Store, seq<U32>))
    requires Inv(s)
    ensures Inv(r.0)
  {
    if es == [] then (s, [])
    else
      var (s1, ids) := Run(check, s, es[..|es| - 1]);
      NextKeeps(check, s1, es[|es| - 1], 0);
      var (s2, r) := Next(check, s1, es[|es| - 1]);
      (s2, if r.Applied? then ids + [r.id] else ids)
  }

  /**
   * Over any run of commands, repeated, reordered or forged, and restarts: no command id is applied
   * twice, and the center of the window never moves down.
   */
  lemma {:induction false} IdsAppliedOnce(check: Check, s: Store, es: seq<Event>)
    requires Inv(s)
    ensures var (s', ids) := Run(check, s, es);
      && (forall i, j :: 0 <= i < j < |ids| ==> ids[i] != ids[j])
      && (forall i :: 0 <= i < |ids| ==> Consumed(s'.window, ids[i]))
      && s'.window.center >= s.window.center
  {
    if es != [] {
      IdsAppliedOnce(check, s, es[..|es| - 1]);
      var (s1, ids) := Run(check, s, es[..|es| - 1]);
      NextKeeps(check, s1, es[|es| - 1], 0);
      forall i | 0 <= i < |ids| ensures Consumed(Next(check, s1, es[|es| - 1]).0.window, ids[i]) {
        NextKeeps(check, s1, es[|es| - 1], ids[i]);
      }
    }
  }

  /** A device with blank memory starts in the invariant, and a restart changes nothing. */
  lemma RestartChangesNothing(s: Store)
    ensures Inv(Init(None))
    ensures Inv(s) ==> Init(s.nv) == s
  {
  }

  /** On a device with blank memory exactly the command ids up to 39 can be used. */
  lemma FirstCommandIds(id: U32)
    ensures Usable(Init(None).window, id) <==> id <= 39
  {
    WithinMeaning(InitialWindow(), id);
  }

  /** A command is applied exactly when the core takes it and some usable id of the window matches its MAC. */
  lemma AppliedIff(check: Check, s: Store, m: Message, accepted: bool)
    requires Inv(s)
    ensures Apply(check, s, m, accepted).1.Applied? <==> accepted && exists id: U32 :: Usable(s.window, id) && Authentic(check, m, id)
    ensures Apply(check, s, m, accepted).1.Applied? ==> forall id: U32 :: Usable(s.window, id) && Authentic(check, m, id) ==>
      Apply(check, s, m, accepted).1.id <= id
  {
    assert forall id: U32 :: IdCheck(check, m)(id) == Authentic(check, m, id);
  }

  /**
   * An applied command uses up its own id and what falls below the window, and nothing else, and is stored; a command
   * that is not applied changes nothing.
   */
  lemma AppliedUsesUp(check: Check, s: Store, m: Message, accepted: bool, other: U32)
    requires Inv(s)
    ensures var (s', r) := Apply(check, s, m, accepted);
      && (r.NotApplied? ==> s' == s)
      && (r.Applied? ==>
            && Formed(s'.window) && s'.nv == Some(s'.window) && s'.window.center == Max(s.window.center, r.id)
            && (Consumed(s'.window, other) <==>
                  other == r.id || other < s'.window.center - WINDOW_BEFORE_CENTER || Consumed(s.window, other)))
  {
    hide Consumed, LeastFrom;
    if Least(s.window, IdCheck(check, m)).Some? {
      var id := Least(s.window, IdCheck(check, m)).value;
      LeastIsFresh(s.window, IdCheck(check, m));
      SetIdMarks(s.window, id, other);
    }
  }

  /**
   * Near the end of the 32-bit range the window wraps and no further command is applied, exactly once
   * the center is above UINT32_MAX - 8.
   */
  lemma NothingUsableIff(w: Window)
    requires Formed(w) && w.below == WINDOW_BEFORE_CENTER && w.above == WINDOW_AFTER_CENTER && w.center >= WINDOW_BEFORE_CENTER
    ensures (forall id: U32 :: !Usable(w, id)) <==> w.center > UINT32_MAX - WINDOW_AFTER_CENTER
  {
    if Sound(w) {
      WithinMeaning(w, w.center + w.above);
      assert Usable(w, w.center + w.above);
    } else {
      forall id: U32 ensures !Usable(w, id) { WithinMeaning(w, id); }
    }
  }
}
