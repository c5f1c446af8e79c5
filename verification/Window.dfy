/**
 * The sliding window of used ids: flags for the center and the ids just below it, and room for ids
 * just above it. Ids below the window count as used.
 */
module Window {
  import opened Prelude

  /** flags[k] belongs to id center - below + k; the last flag is the center's. */
  datatype Window = Window(center: U32, flags: seq<bool>, below: U8, above: U8)

  /** A window no id of which has been used; the center is as low as it can be. */
  function Blank(below: U8, above: U8): (r: Window) {
    Window(below, seq(below + 1, _ => false), below, above)
  }

  /** What window_init() asserts about its arguments. */
  predicate Formed(w: Window) {
    |w.flags| == w.below + 1
  }

  /** Neither end of the window wraps around. */
  predicate Sound(w: Window) {
    Formed(w) && w.below <= w.center && w.center + w.above <= UINT32_MAX
  }

  function Sub32(a: U32, b: U32): (r: U32) {
    (a - b) % 0x1_0000_0000
  }

  /** nexus_util_window_id_within_window(), with its 32-bit ends. */
  predicate Within(w: Window, id: U32) {
    Sub32(w.center, w.below) <= id <= Add32(w.center, w.above)
  }

  /** A window with a wrapped end contains nothing. */
  lemma WithinMeaning(w: Window, id: U32)
    requires Formed(w)
    ensures Within(w, id) <==> Sound(w) && w.center - w.below <= id <= w.center + w.above
  {
  }

  function FlagIndex(w: Window, id: U32): (r: int) {
    w.below - (w.center - id)
  }

  /** nexus_util_window_id_flag_already_set() */
  predicate AlreadySet(w: Window, id: U32)
    requires Formed(w)
  {
    WithinMeaning(w, id);
    id <= w.center && Within(w, id) && w.flags[FlagIndex(w, id)]
  }

  /** The flags after the center moves up by n, before the new center is marked. */
  function Moved(flags: seq<bool>, n: nat): (r: seq<bool>)
    ensures |r| == |flags|
    ensures forall k :: 0 <= k < |r| ==> r[k] == (k + n < |flags| && flags[k + n])
  {
    seq(|flags|, k requires 0 <= k < |flags| => k + n < |flags| && flags[k + n])
  }

  /** nexus_util_window_set_id_flag() */
  function SetId(w: Window, id: U32): (r: (Window, bool))
    requires Formed(w)
  {
    WithinMeaning(w, id);
    if id > Add32(w.center, w.above) || id < Sub32(w.center, w.below) then (w, false)
    else if id <= w.center then (w.(flags := w.flags[FlagIndex(w, id) := true]), true)
    else (w.(center := id, flags := Moved(w.flags, id - w.center)[w.below := true]), true)
  }

  /** An id that may still be used: in the window and not marked. */
  predicate Usable(w: Window, id: U32)
    requires Formed(w)
  {
    Within(w, id) && !AlreadySet(w, id)
  }

  /** An id that will never be used again: marked, or below the window. */
  predicate Consumed(w: Window, id: U32)
    requires Formed(w)
  {
    id <= w.center && (id < w.center - w.below || w.flags[FlagIndex(w, id)])
  }

  lemma ConsumedIsNotUsable(w: Window, id: U32)
    requires Formed(w)
    ensures Consumed(w, id) ==> !Usable(w, id)
    ensures Within(w, id) ==> (Consumed(w, id) <==> AlreadySet(w, id))
  {
    WithinMeaning(w, id);
  }

  // ---------------------------------------------------------------- what marking an id does

  /**
   * Marking an id of the window consumes that id and the ids that fall below the window, nothing
   * else; the center never moves down.
   */
  lemma SetIdMarks(w: Window, id: U32, other: U32)
    requires Sound(w) && Within(w, id)
    ensures var (w', done) := SetId(w, id);
      && done && Formed(w') && w'.center == Max(w.center, id)
      && w'.below == w.below && w'.above == w.above
      && (Consumed(w', other) <==> other == id || other < w'.center - w'.below || Consumed(w, other))
  {
    WithinMeaning(w, id);
  }

  /** Ids outside the window leave it alone. */
  lemma SetIdOutside(w: Window, id: U32)
    requires Formed(w) && !Within(w, id)
    ensures SetId(w, id) == (w, false)
  {
  }

  /** Once consumed, always consumed, also when the id falls below the window. */
  lemma ConsumedStays(w: Window, id: U32, other: U32)
    requires Formed(w) && Consumed(w, other)
    ensures Formed(SetId(w, id).0) && Consumed(SetId(w, id).0, other) && SetId(w, id).0.center >= w.center
  {
    WithinMeaning(w, id);
    if Within(w, id) {
      SetIdMarks(w, id, other);
    } else {
      SetIdOutside(w, id);
    }
  }

  /** Marking twice is marking once, also when the mark pushes an end of the window out of range. */
  lemma SetIdIdempotent(w: Window, id: U32)
    requires Formed(w)
    ensures Formed(SetId(w, id).0) && SetId(SetId(w, id).0, id).0 == SetId(w, id).0
  {
    WithinMeaning(w, id);
    var w' := SetId(w, id).0;
    WithinMeaning(w', id);
    if Within(w, id) {
      assert w'.flags[FlagIndex(w', id)];
      assert w'.flags[FlagIndex(w', id) := true] == w'.flags;
    }
  }

  // ---------------------------------------------------------------- searching the window

  /** The least usable id at or above lo that passes the check. */
  function LeastFrom(w: Window, check: U32 -> bool, lo: int): (r: Option<U32>)
    requires Sound(w) && w.center - w.below <= lo <= w.center + w.above + 1
    decreases w.center + w.above + 1 - lo
  {
    if lo > w.center + w.above then None
    else if !AlreadySet(w, lo) && check(lo) then Some(lo)
    else LeastFrom(w, check, lo + 1)
  }

  lemma LeastStep(w: Window, check: U32 -> bool, lo: int)
    requires Sound(w) && w.center - w.below <= lo <= w.center + w.above + 1
    ensures LeastFrom(w, check, lo) ==
      if lo > w.center + w.above then None
      else if !AlreadySet(w, lo) && check(lo) then Some(lo)
      else LeastFrom(w, check, lo + 1)
  {
  }

  lemma {:induction false} LeastFromMeaning(w: Window, check: U32 -> bool, lo: int)
    requires Sound(w) && w.center - w.below <= lo <= w.center + w.above + 1
    ensures var r := LeastFrom(w, check, lo);
      && (r.Some? ==> lo <= r.value && Usable(w, r.value) && check(r.value))
      && forall j: U32 :: lo <= j && (r.Some? ==> j < r.value) && Usable(w, j) ==> !check(j)
    decreases w.center + w.above + 1 - lo
  {
    forall j: U32 ensures Within(w, j) <==> w.center - w.below <= j <= w.center + w.above { WithinMeaning(w, j); }
    if lo <= w.center + w.above {
      LeastFromMeaning(w, check, lo + 1);
    }
  }

  /** The least usable id that passes the check; a window with a wrapped end has none. */
  function Least(w: Window, check: U32 -> bool): (r: Option<U32>)
    requires Formed(w)
    ensures r.Some? ==> Usable(w, r.value) && check(r.value)
    ensures forall j: U32 :: Usable(w, j) && (r.Some? ==> j < r.value) ==> !check(j)
  {
    assert forall j: U32 :: Within(w, j) <==> Sound(w) && w.center - w.below <= j <= w.center + w.above by {
      forall j: U32 ensures Within(w, j) <==> Sound(w) && w.center - w.below <= j <= w.center + w.above { WithinMeaning(w, j); }
    }
    if !Sound(w) then None
    else
      LeastFromMeaning(w, check, w.center - w.below);
      LeastFrom(w, check, w.center - w.below)
  }

  /** Picking the least id that passes and marking it uses it up: it was not consumed and now is. */
  lemma LeastIsFresh(w: Window, check: U32 -> bool)
    requires Formed(w) && Least(w, check).Some?
    ensures var id := Least(w, check).value;
      Sound(w) && Within(w, id) && Formed(SetId(w, id).0) && !Consumed(w, id) && Consumed(SetId(w, id).0, id)
  {
    var id := Least(w, check).value;
    WithinMeaning(w, id);
    ConsumedIsNotUsable(w, id);
    SetIdMarks(w, id, id);
  }

  // ---------------------------------------------------------------- searching with a counter up to the top id

  /** Endless: the loop counter wraps around and the loop never ends. */
  datatype Search = Found(id: U32) | NotFound | Endless

  /** The top id is UINT32_MAX, so a 32-bit counter never exceeds it. */
  predicate AtTop(w: Window) {
    w.center + w.above == UINT32_MAX
  }

  function Successor(id: U32): (r: U32)
    ensures r == if id == UINT32_MAX then 0 else id + 1
  {
    Add32(id, 1)
  }

  /** The n-th id such a counter reaches. */
  function CounterAt(w: Window, n: nat): (r: U32) {
    (Sub32(w.center, w.below) + n) % 0x1_0000_0000
  }

  /** The search by such a counter from the n-th id on; it is endless once the counter has taken every value. */
  function SearchFrom(w: Window, check: U32 -> bool, n: nat): (r: Search)
    requires Formed(w) && n <= 0x1_0000_0000
    decreases 0x1_0000_0000 - n
  {
    if n == 0x1_0000_0000 then Endless
    else if CounterAt(w, n) > Add32(w.center, w.above) then NotFound
    else if !AlreadySet(w, CounterAt(w, n)) && check(CounterAt(w, n)) then Found(CounterAt(w, n))
    else SearchFrom(w, check, n + 1)
  }

  /** A search by a counter from the lowest to the top id, both in 32 bits. */
  function Searched(w: Window, check: U32 -> bool): (r: Search)
    requires Formed(w)
  {
    SearchFrom(w, check, 0)
  }

  lemma SearchStep(w: Window, check: U32 -> bool, n: nat)
    requires Formed(w) && n <= 0x1_0000_0000
    ensures SearchFrom(w, check, n) ==
      if n == 0x1_0000_0000 then Endless
      else if CounterAt(w, n) > Add32(w.center, w.above) then NotFound
      else if !AlreadySet(w, CounterAt(w, n)) && check(CounterAt(w, n)) then Found(CounterAt(w, n))
      else SearchFrom(w, check, n + 1)
  {
  }

  lemma CounterNext(w: Window, n: nat)
    requires n < 0x1_0000_0000
    ensures CounterAt(w, n + 1) == Successor(CounterAt(w, n)) && CounterAt(w, 0) == Sub32(w.center, w.below)
    ensures CounterAt(w, n + 1) == CounterAt(w, 0) <==> n == UINT32_MAX
  {
  }

  /** The counter finds the least usable id that passes, if any; if not, it finds nothing below the top id UINT32_MAX. */
  lemma SearchedIsLeast(w: Window, check: U32 -> bool)
    requires Formed(w)
    ensures Least(w, check).Some? ==> Searched(w, check) == Found(Least(w, check).value)
    ensures Least(w, check).None? && !AtTop(w) ==> Searched(w, check) == NotFound
  {
    LeastIs(w, check);
    hide Least, LeastFrom;
    if Sound(w) {
      hide SearchFrom, AtTop;
      SearchedIsLeastFrom(w, check, 0);
    } else {
      WithinMeaning(w, Sub32(w.center, w.below));
      SearchStep(w, check, 0);
    }
  }

  lemma LeastIs(w: Window, check: U32 -> bool)
    requires Formed(w)
    ensures Least(w, check) == if Sound(w) then LeastFrom(w, check, w.center - w.below) else None
  {
    hide LeastFrom, AlreadySet, Within;
  }

  lemma CounterInWindow(w: Window, n: nat)
    requires Sound(w) && n <= w.below + w.above
    ensures CounterAt(w, n) == w.center - w.below + n && Add32(w.center, w.above) == w.center + w.above
  {
  }

  lemma CounterPast(w: Window)
    requires Sound(w) && !AtTop(w)
    ensures CounterAt(w, w.below + w.above + 1) == w.center + w.above + 1 > Add32(w.center, w.above)
  {
  }

  lemma {:induction false} SearchedIsLeastFrom(w: Window, check: U32 -> bool, n: nat)
    requires Sound(w) && n <= w.below + w.above + 1
    ensures var r := LeastFrom(w, check, w.center - w.below + n);
      && (r.Some? ==> SearchFrom(w, check, n) == Found(r.value))
      && (r.None? && !AtTop(w) ==> SearchFrom(w, check, n) == NotFound)
    decreases w.below + w.above + 1 - n
  {
    hide LeastFrom, SearchFrom, AlreadySet, CounterAt, Add32;
    SearchStep(w, check, n);
    LeastStep(w, check, w.center - w.below + n);
    if n <= w.below + w.above {
      CounterInWindow(w, n);
      SearchedIsLeastFrom(w, check, n + 1);
    } else if !AtTop(w) {
      CounterPast(w);
    }
  }

  lemma {:induction false} SearchFinds(w: Window, check: U32 -> bool, n: nat)
    requires Formed(w) && n <= 0x1_0000_0000
    ensures var r := SearchFrom(w, check, n);
      && (r.Found? ==> check(r.id) && !AlreadySet(w, r.id))
      && (AtTop(w) ==> !r.NotFound?)
      && (r.Endless? ==> forall k :: n <= k < 0x1_0000_0000 ==> AlreadySet(w, CounterAt(w, k)) || !check(CounterAt(w, k)))
    decreases 0x1_0000_0000 - n
  {
    hide AlreadySet, CounterAt;
    if n < 0x1_0000_0000 { SearchFinds(w, check, n + 1); }
  }

  lemma {:induction false} SearchSkips(w: Window, check: U32 -> bool, n: nat, m: nat)
    requires Formed(w) && AtTop(w) && n <= m < 0x1_0000_0000
    requires forall k :: n <= k < m ==> !check(CounterAt(w, k))
    ensures SearchFrom(w, check, n) == SearchFrom(w, check, m)
    decreases m - n
  {
    hide AlreadySet, CounterAt;
    if n < m { SearchSkips(w, check, n + 1, m); }
  }

  /**
   * The id found passes the check. It is a used one exactly when the window ends at UINT32_MAX and holds no
   * usable id that passes; otherwise it is in the window.
   */
  lemma SearchedMeaning(w: Window, check: U32 -> bool)
    requires Formed(w) && w.below <= w.center && Searched(w, check).Found?
    ensures var id := Searched(w, check).id;
      && check(id) && (Consumed(w, id) <==> AtTop(w) && Least(w, check).None?) && (Consumed(w, id) <==> !Within(w, id))
  {
    var id := Searched(w, check).id;
    WithinMeaning(w, id);
    SearchedIsLeast(w, check);
    if Least(w, check).Some? {
      LeastIsFresh(w, check);
    } else {
      SearchFinds(w, check, 0);
    }
  }

  /** The search never ends exactly when the window ends at UINT32_MAX and no number passes that is not marked. */
  lemma EndlessIff(w: Window, check: U32 -> bool)
    requires Formed(w)
    ensures Searched(w, check).Endless? <==> AtTop(w) && forall id: U32 :: AlreadySet(w, id) || !check(id)
  {
    hide AlreadySet, CounterAt, Least;
    if AtTop(w) {
      SearchFinds(w, check, 0);
      hide SearchFrom;
      if Searched(w, check).Endless? {
        forall id: U32 ensures AlreadySet(w, id) || !check(id) {
          EveryIdIsReached(w, id);
        }
      }
    } else {
      SearchedIsLeast(w, check);
    }
  }

  lemma EveryIdIsReached(w: Window, id: U32)
    ensures CounterAt(w, (id - Sub32(w.center, w.below)) % 0x1_0000_0000) == id
  {
  }

  // ---------------------------------------------------------------- the window in memory

  class IdWindow {
    var centerIndex: U32
    const flags: array<bool>
    const flagsBelow: U8
    const flagsAbove: U8

    ghost function Value(): (r: Window)
      reads this, flags
    {
      Window(centerIndex, flags[..], flagsBelow, flagsAbove)
    }

    constructor (center: U32, below: U8, above: U8)
      ensures Value() == Window(center, seq(below + 1, _ => false), below, above) && fresh(flags) && flags.Length == below + 1
    {
      centerIndex, flagsBelow, flagsAbove := center, below, above;
      flags := new bool[below + 1](_ => false);
      new;
      assert flags[..] == seq(below + 1, _ => false);
    }

    /** Takes center and flags from a stored copy. */
    method Load(stored: Window)
      requires |stored.flags| == flags.Length && stored.below == flagsBelow && stored.above == flagsAbove
      modifies `centerIndex, flags
      ensures Value() == stored
    {
      centerIndex := stored.center;
      forall k | 0 <= k < flags.Length {
        flags[k] := stored.flags[k];
      }
      assert flags[..] == stored.flags;
    }

    method IdWithinWindow(id: U32) returns (within: bool)
      ensures within == Within(Value(), id)
    {
      var windowMin := Sub32(centerIndex, flagsBelow);
      var windowMax := Add32(centerIndex, flagsAbove);
      within := id >= windowMin && id <= windowMax;
    }

    method IdFlagAlreadySet(id: U32) returns (set_: bool)
      requires Formed(Value())
      ensures set_ == AlreadySet(Value(), id)
    {
      WithinMeaning(Value(), id);
      var within := IdWithinWindow(id);
      if id > centerIndex || !within {
        return false;
      }
      set_ := flags[flagsBelow - (centerIndex - id)];
    }

    /** The search both receivers of windowed ids run: up from the bottom of the window while ids are in it. */
    method SearchUp(check: U32 -> bool) returns (id: Option<U32>)
      requires Formed(Value())
      ensures id == if Sound(Value()) then LeastFrom(Value(), check, centerIndex - flagsBelow) else None
    {
      ghost var w := Value();
      ghost var top: int := w.center + w.above;
      var candidate := Sub32(centerIndex, flagsBelow);
      ghost var at: int := w.center - w.below;
      assert Sound(w) ==> candidate == at;
      hide Within, AlreadySet, Sub32, Add32, LeastFrom;
      WithinMeaning(w, candidate);
      var within := IdWithinWindow(candidate);
      while within
        invariant Sound(w) ==> w.center - w.below <= at <= top + 1 && candidate == (if at <= UINT32_MAX then at else 0)
        invariant within <==> Sound(w) && at <= top
        invariant Sound(w) ==> LeastFrom(w, check, w.center - w.below) == LeastFrom(w, check, at)
        decreases top + 1 - at
      {
        LeastStep(w, check, at);
        var already := IdFlagAlreadySet(candidate);
        if !already && check(candidate) {
          return Some(candidate);
        }
        candidate := Successor(candidate);
        at := at + 1;
        WithinMeaning(w, candidate);
        within := IdWithinWindow(candidate);
      }
      if Sound(w) {
        LeastStep(w, check, at);
      }
      id := None;
    }

    method SetIdFlag(id: U32) returns (done: bool)
      requires Formed(Value())
      modifies `centerIndex, flags
      ensures (Value(), done) == SetId(old(Value()), id)
    {
      WithinMeaning(Value(), id);
      var oldCenter := centerIndex;
      if id > Add32(oldCenter, flagsAbove) {
        return false;
      } else if id < Sub32(oldCenter, flagsBelow) {
        return false;
      }
      if id <= centerIndex {
        flags[flagsBelow - (centerIndex - id)] := true;
        return true;
      }
      MoveFlags(id - oldCenter);
      centerIndex := id;
      flags[flagsBelow] := true;
      done := true;
    }

    /** Shifts the flags down, clearing all of them on a move beyond the stored ones. */
    method MoveFlags(centerIncrement: nat)
      requires Formed(Value()) && centerIncrement > 0
      modifies flags
      ensures flags[..] == Moved(old(flags[..]), centerIncrement)
    {
      if centerIncrement > flagsBelow {
        for k := 0 to flags.Length
          invariant forall j :: 0 <= j < k ==> !flags[j]
        {
          flags[k] := false;
        }
        assert flags[..] == Moved(old(flags[..]), centerIncrement);
        return;
      }
      var newMask := new bool[flags.Length](_ => false);
      for i := centerIncrement to flags.Length
        invariant flags[..] == old(flags[..])
        invariant forall k :: 0 <= k < i - centerIncrement ==> newMask[k] == flags[k + centerIncrement]
        invariant forall k :: i - centerIncrement <= k < newMask.Length ==> !newMask[k]
      {
        if flags[i] {
          newMask[i - centerIncrement] := true;
        }
      }
      forall k | 0 <= k < flags.Length {
        flags[k] := newMask[k];
      }
      assert flags[..] == Moved(old(flags[..]), centerIncrement);
    }
  }
}
