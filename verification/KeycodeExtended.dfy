/**
 * Extended keycodes of the small protocol: a bit string with two bits of a windowed message id. Applying
 * one uses up its id and every id below it.
 */
module KeycodeExtended {
  import opened Prelude
  import opened Window

  const BELOW: U8 := 23
  const ABOVE: U8 := 40
  const STREAM_BITS := 26

  /** The 12 bits of MAC over some bytes under the secret key. */
  type Check = Bytes -> U16

  datatype Message = Message(truncatedId: U8, incrementId: U8, check: U16)

  // ---------------------------------------------------------------- the bit stream

  function Pow2(n: nat): (p: nat)
    ensures p > 0
  {
    if n == 0 then 1 else 2 * Pow2(n - 1)
  }

  /** Bit p of the bytes, most significant bit first. */
  function Bit(data: Bytes, p: nat): (b: nat)
    requires p < 8 * |data|
    ensures b < 2
  {
    data[p / 8] / Pow2(7 - p % 8) % 2
  }

  /** The number in n bits from p on. */
  function Bits(data: Bytes, p: nat, n: nat): (r: nat)
    requires p + n <= 8 * |data|
  {
    if n == 0 then 0 else 2 * Bits(data, p, n - 1) + Bit(data, p + n - 1)
  }

  lemma {:induction false} BitsBelow(data: Bytes, p: nat, n: nat)
    requires p + n <= 8 * |data|
    ensures Bits(data, p, n) < Pow2(n)
  {
    hide Bit;
    if n > 0 { BitsBelow(data, p, n - 1); }
  }

  lemma LastBit(data: Bytes, p: nat, n: nat)
    requires 0 < n && p + n <= 8 * |data|
    ensures Bits(data, p, n) == 2 * Bits(data, p, n - 1) + Bit(data, p + n - 1) && Pow2(n) == 2 * Pow2(n - 1)
  {
    hide Bit;
  }

  /** A number made of a high part, shifted by the factor, and a low part. */
  predicate Joins(whole: nat, high: nat, factor: nat, low: nat) {
    whole == high * factor + low
  }

  lemma JoinsOneBitMore(whole: nat, high: nat, factor: nat, low: nat, bit: nat)
    requires Joins(whole, high, factor, low)
    ensures Joins(2 * whole + bit, high, 2 * factor, 2 * low + bit)
  {
  }

  lemma NoBits(data: Bytes, p: nat)
    requires p <= 8 * |data|
    ensures Bits(data, p, 0) == 0 && Pow2(0) == 1 && forall high: nat :: Joins(high, high, 1, 0)
  {
  }

  lemma {:induction false} BitsConcat(data: Bytes, p: nat, m: nat, n: nat)
    requires p + m + n <= 8 * |data|
    ensures Joins(Bits(data, p, m + n), Bits(data, p, m), Pow2(n), Bits(data, p + m, n))
  {
    hide Bits, Pow2, Joins;
    if n == 0 {
      NoBits(data, p + m);
    } else {
      BitsConcat(data, p, m, n - 1);
      LastBit(data, p, m + n);
      LastBit(data, p + m, n);
      var low, bit := Bits(data, p + m, n - 1), Bit(data, p + m + n - 1);
      JoinsOneBitMore(Bits(data, p, m + (n - 1)), Bits(data, p, m), Pow2(n - 1), low, bit);
    }
  }

  lemma ShiftedFits(high: nat, low: nat, n: nat)
    requires high < 256 && n <= 8 && low < Pow2(n)
    ensures high * Pow2(n) + low < 0x1_0000
  {
    Pow2Small(n);
    Products(high, 255, Pow2(n), 256);
    assert (high + 1) * Pow2(n) == high * Pow2(n) + Pow2(n);
    Products(high + 1, 256, Pow2(n), 256);
  }

  lemma {:induction false} BitsInjective(a: Bytes, b: Bytes, p: nat, n: nat, k: nat)
    requires p + n <= 8 * |a| && p + n <= 8 * |b| && Bits(a, p, n) == Bits(b, p, n) && p <= k < p + n
    ensures Bit(a, k) == Bit(b, k)
  {
    hide Bit;
    if k < p + n - 1 {
      BitsInjective(a, b, p, n - 1, k);
    }
  }

  class Bitstream {
    const data: Bytes
    const length: nat
    var position: nat

    constructor (data: Bytes, length: nat, position: nat)
      ensures this.data == data && this.length == length && this.position == position
    {
      this.data, this.length, this.position := data, length, position;
    }

    ghost predicate Valid()
      reads this
    {
      position <= length <= 8 * |data|
    }

    method PullBit() returns (bit: nat)
      requires Valid() && position < length
      modifies this
      ensures Valid() && position == old(position) + 1 && bit == Bit(data, old(position))
    {
      var bytePosition := position / 8;
      var shift := (bytePosition + 1) * 8 - position - 1;
      position := position + 1;
      bit := data[bytePosition] / Pow2(shift) % 2;
    }

    method PullUint8(bits: nat) returns (pulled: U8)
      requires Valid() && bits <= 8 && position + bits <= length
      modifies this
      ensures Valid() && position == old(position) + bits && pulled == Bits(data, old(position), bits)
    {
      pulled := 0;
      for i := 0 to bits
        invariant Valid() && position == old(position) + i && pulled == Bits(data, old(position), i)
      {
        Pow2Small(i + 1);
        BitsBelow(data, old(position), i + 1);
        var bit := PullBit();
        pulled := pulled * 2 + bit;
      }
    }

    /** Up to sixteen bits: the first eight, then the others. */
    method PullUint16Be(bits: nat) returns (pulled: U16)
      requires Valid() && bits <= 16 && position + bits <= length
      modifies this
      ensures Valid() && position == old(position) + bits && pulled == Bits(data, old(position), bits)
    {
      var msbyteBits := if bits > 8 then 8 else bits;
      var lsbyteBits := if bits > 8 then bits - 8 else 0;
      assert Valid() && 8 * |data| >= position + msbyteBits + lsbyteBits;
      hide *;
      BitsConcat(data, position, msbyteBits, lsbyteBits);
      BitsBelow(data, position + msbyteBits, lsbyteBits);
      var high: int := PullUint8(msbyteBits);
      var low: int := PullUint8(lsbyteBits);
      ShiftedFits(high, low, lsbyteBits);
      pulled := high * Pow2(lsbyteBits) + low;
    }
  }

  lemma Pow2Small(n: nat)
    requires n <= 8
    ensures Pow2(n) <= 256
    ensures n <= 4 ==> Pow2(n) <= 16
  {
    assert Pow2(4) == 16;
    if n > 4 {
      assert Pow2(n) <= 16 * 16 by { Pow2Adds(4, n - 4); Pow2Small(n - 4); }
    }
  }

  lemma {:induction false} Pow2Adds(a: nat, b: nat)
    ensures Pow2(a + b) == Pow2(a) * Pow2(b)
  {
    if b > 0 { Pow2Adds(a, b - 1); }
  }

  // ---------------------------------------------------------------- parsing

  /** The message in a stream whose first bit has been consumed; only type 0 is known. */
  function Parsed(data: Bytes): (r: Option<Message>)
    requires STREAM_BITS <= 8 * |data|
  {
    FieldsFit(data);
    if Bits(data, 1, 3) != 0 then None else Some(Message(Bits(data, 4, 2), Bits(data, 6, 8), Bits(data, 14, 12)))
  }

  lemma FieldsFit(data: Bytes)
    requires STREAM_BITS <= 8 * |data|
    ensures Bits(data, 4, 2) < 0x100 && Bits(data, 6, 8) < 0x100 && Bits(data, 14, 12) < 0x1_0000
  {
    Pow2Small(2);
    Pow2Small(8);
    Pow2Small(4);
    Pow2Adds(8, 4);
    Products(Pow2(8), 256, Pow2(4), 16);
    BitsBelow(data, 4, 2);
    BitsBelow(data, 6, 8);
    BitsBelow(data, 14, 12);
  }

  /** nexus_keycode_pro_extended_small_parse() */
  method Parse(stream: Bitstream) returns (m: Option<Message>)
    requires stream.Valid() && stream.length == STREAM_BITS && stream.position == 1
    modifies stream
    ensures m == Parsed(stream.data)
    ensures m.Some? ==> stream.position == stream.length
  {
    var typeCode := stream.PullUint8(3);
    if typeCode != 0 {
      return None;
    }
    var truncatedId := stream.PullUint8(2);
    var incrementId := stream.PullUint8(8);
    var check := stream.PullUint16Be(12);
    m := Some(Message(truncatedId, incrementId, check));
  }

  /** No two codes mean the same message: all 25 bits behind the first are in it. */
  lemma ParseInjective(a: Bytes, b: Bytes, k: nat)
    requires STREAM_BITS <= 8 * |a| && STREAM_BITS <= 8 * |b| && Parsed(a).Some? && Parsed(a) == Parsed(b) && 1 <= k < STREAM_BITS
    ensures Bit(a, k) == Bit(b, k)
  {
    hide Bits, Bit;
    if k < 4 {
      BitsInjective(a, b, 1, 3, k);
    } else if k < 6 {
      BitsInjective(a, b, 4, 2, k);
    } else if k < 14 {
      BitsInjective(a, b, 6, 8, k);
    } else {
      BitsInjective(a, b, 14, 12, k);
    }
  }

  /** The n binary digits of a number, the one that counts most first. */
  function BinaryDigits(v: nat, n: nat): (d: seq<int>)
    ensures |d| == n
  {
    if n == 0 then [] else BinaryDigits(v / 2, n - 1) + [v % 2]
  }

  function BitsFrom(data: Bytes, p: nat, n: nat): (d: seq<int>)
    requires p + n <= 8 * |data|
  {
    seq(n, j requires 0 <= j < n => Bit(data, p + j))
  }

  /** Some bits are a number exactly when they are its binary digits. */
  lemma {:induction false} BitsMeaning(data: Bytes, p: nat, n: nat, v: nat)
    requires p + n <= 8 * |data| && v < Pow2(n)
    ensures Bits(data, p, n) == v <==> BitsFrom(data, p, n) == BinaryDigits(v, n)
  {
    if n > 0 {
      LastBit(data, p, n);
      assert Bits(data, p, n) == v <==> Bits(data, p, n - 1) == v / 2 && Bit(data, p + n - 1) == v % 2;
      hide Bits, Bit, Pow2;
      BitsMeaning(data, p, n - 1, v / 2);
      assert BitsFrom(data, p, n) == BitsFrom(data, p, n - 1) + [Bit(data, p + n - 1)];
      LastDigits(BitsFrom(data, p, n - 1), Bit(data, p + n - 1), BinaryDigits(v / 2, n - 1), v % 2);
    }
  }

  lemma LastDigits(a: seq<int>, x: int, b: seq<int>, y: int)
    ensures a + [x] == b + [y] <==> a == b && x == y
  {
    if a + [x] == b + [y] {
      assert a == (a + [x])[..|a|] && b == (b + [y])[..|b|];
      assert (a + [x])[|a|] == x && (b + [y])[|b|] == y;
    }
  }

  /** The bits of each byte are its binary digits, from the top one down. */
  lemma BitsOfByte(data: Bytes, k: nat)
    requires k < |data|
    ensures BitsFrom(data, 8 * k, 8) == BinaryDigits(data[k], 8)
  {
    var d, e := BitsFrom(data, 8 * k, 8), BinaryDigits(data[k], 8);
    forall j | 0 <= j < 8 ensures d[j] == e[j] {
      hide Pow2, BinaryDigits;
      DivModIs(8 * k + j, 8, k, j);
      DigitAt(data[k], 8, j);
      assert 7 - (8 * k + j) % 8 == 8 - 1 - j;
      assert Bit(data, 8 * k + j) == data[k] / Pow2(8 - 1 - j) % 2;
    }
  }

  lemma {:induction false} DigitAt(v: nat, n: nat, j: nat)
    requires j < n
    ensures BinaryDigits(v, n)[j] == v / Pow2(n - 1 - j) % 2
  {
    if j < n - 1 {
      DigitAt(v / 2, n - 1, j);
      HalfFirst(v, Pow2(n - 2 - j));
      assert Pow2(n - 1 - j) == 2 * Pow2(n - 2 - j);
    } else {
      assert Pow2(0) == 1;
    }
  }

  lemma HalfFirst(v: nat, p: nat)
    requires p > 0
    ensures v / 2 / p == v / (2 * p)
  {
    var q, r := v / 2 / p, v / 2 % p;
    assert v / 2 == q * p + r;
    assert q * (2 * p) == 2 * (q * p);
    DivModIs(v, 2 * p, q, 2 * r + v % 2);
  }

  /**
   * The bits of a message behind the first: three zeros for the type, two of the message id, eight of the increment
   * id and twelve of the MAC.
   */
  ghost predicate IsWritten(data: Bytes, m: Message)
    requires STREAM_BITS <= 8 * |data|
  {
    && m.truncatedId < 4 && m.check < 4096
    && BitsFrom(data, 1, 3) == [0, 0, 0] && BitsFrom(data, 4, 2) == BinaryDigits(m.truncatedId, 2)
    && BitsFrom(data, 6, 8) == BinaryDigits(m.incrementId, 8) && BitsFrom(data, 14, 12) == BinaryDigits(m.check, 12)
  }

  /** A code parses to a message exactly when its bits write that message. */
  lemma ParsedMeaning(data: Bytes, m: Message)
    requires STREAM_BITS <= 8 * |data|
    ensures Parsed(data) == Some(m) <==> IsWritten(data, m)
  {
    assert Pow2(3) == 8 && Pow2(2) == 4;
    assert Pow2(8) == 256 by { Pow2Adds(4, 4); assert Pow2(4) == 16; }
    assert Pow2(12) == 4096 by { Pow2Adds(8, 4); assert Pow2(4) == 16; }
    BitsBelow(data, 4, 2);
    BitsBelow(data, 6, 8);
    BitsBelow(data, 14, 12);
    BitsMeaning(data, 1, 3, 0);
    assert BinaryDigits(0, 3) == [0, 0, 0];
    hide Bits, BitsFrom, BinaryDigits, Pow2;
    if m.truncatedId < 4 { BitsMeaning(data, 4, 2, m.truncatedId); }
    BitsMeaning(data, 6, 8, m.incrementId);
    if m.check < 4096 { BitsMeaning(data, 14, 12, m.check); }
  }

  // ---------------------------------------------------------------- applying

  predicate Authentic(check: Check, m: Message, id: U32) {
    id % 4 == m.truncatedId && check(Le32(id) + [0, m.incrementId, m.truncatedId]) == m.check
  }

  /** The seven bytes the MAC is made of: the message id, the type and both ids of the code. */
  ghost predicate IsLayout(bytes: Bytes, m: Message, id: U32) {
    |bytes| == 7 && LeValue(bytes[..4]) == id && bytes[4] == 0 && bytes[5] == m.incrementId && bytes[6] == m.truncatedId
  }

  /** A code is right for a message id when it has its two lowest bits and the MAC of the id and all else it says. */
  lemma AuthenticMeaning(check: Check, m: Message, id: U32)
    ensures Authentic(check, m, id) <==>
      id % 4 == m.truncatedId && exists bytes: Bytes :: IsLayout(bytes, m, id) && check(bytes) == m.check
  {
    Le32Meaning(id);
    var own := Le32(id) + [0, m.incrementId, m.truncatedId];
    assert own[..4] == Le32(id) && IsLayout(own, m, id);
    forall bytes: Bytes | IsLayout(bytes, m, id) ensures bytes == own {
      LeValueInjective(bytes[..4], Le32(id));
      assert bytes == bytes[..4] + [bytes[4], bytes[5], bytes[6]];
    }
  }

  /** Codes with the same MAC bytes have the same message id and increment id. */
  lemma LayoutTellsApart(bytes: Bytes, m: Message, id: U32, m': Message, id': U32)
    requires IsLayout(bytes, m, id) && IsLayout(bytes, m', id')
    ensures id == id' && m.incrementId == m'.incrementId && m.truncatedId == m'.truncatedId
  {
  }

  function IdCheck(check: Check, m: Message): (r: U32 -> bool) {
    (id: U32) => Authentic(check, m, id)
  }

  ghost predicate Inv(w: Window) {
    Formed(w) && w.below == BELOW && w.above == ABOVE && w.center >= BELOW
  }

  /** Sets every flag up to the given one. */
  function FlagsUpTo(flags: seq<bool>, k: int): (r: seq<bool>)
    ensures |r| == |flags| && forall i :: 0 <= i < |r| ==> r[i] == (i <= k || flags[i])
  {
    seq(|flags|, i requires 0 <= i < |flags| => i <= k || flags[i])
  }

  /**
   * nexus_keycode_pro_mask_below_message_id(). An id just below the window's lowest one finds no place
   * in it and sets all flags.
   */
  function MaskBelow(w: Window, fullMessageId: U16): (w': Window)
    requires Inv(w)
  {
    var id := fullMessageId - 1;
    if fullMessageId == 0 || fullMessageId < w.center - BELOW then w
    else if id > w.center then w.(center := id, flags := FlagsUpTo(Moved(w.flags, id - w.center), BELOW))
    else if id >= w.center - BELOW then w.(flags := FlagsUpTo(w.flags, FlagIndex(w, id)))
    else w.(flags := FlagsUpTo(w.flags, BELOW))
  }

  /** nexus_keycode_pro_set_full_message_id_flag(); an id below the window sets the flag of the center. */
  function SetFlag(w: Window, fullMessageId: U16): (w': Window)
    requires Inv(w)
  {
    if fullMessageId > w.center then
      w.(center := fullMessageId, flags := Moved(w.flags, fullMessageId - w.center)[BELOW := true])
    else if fullMessageId >= w.center - BELOW then w.(flags := w.flags[FlagIndex(w, fullMessageId) := true])
    else w.(flags := w.flags[BELOW := true])
  }

  datatype Applied = Applied(id: U32) | Invalid

  /** The 16-bit argument apply passes on for an id: the next one, in 16 bits. */
  function NextId16(id: U32): (m: U16) {
    (id % 0x1_0000 + 1) % 0x1_0000
  }

  /** extended_small_apply() */
  function Apply(check: Check, w: Window, m: Message): (r: (Window, Applied))
    requires Inv(w)
  {
    var id := Least(w, IdCheck(check, m));
    if id.None? then (w, Invalid) else (MaskBelow(w, NextId16(id.value)), Applied(id.value))
  }

  // ---------------------------------------------------------------- what masking uses up

  /**
   * Masking below an id uses up exactly the ids below it, besides those used before; an id below the
   * window masks nothing, but its lowest one masks the whole window.
   */
  lemma MaskBelowMeaning(w: Window, fullMessageId: U16, other: U32)
    requires Inv(w)
    ensures var w' := MaskBelow(w, fullMessageId);
      && Inv(w') && w'.center >= w.center
      && (Consumed(w', other) <==>
            || Consumed(w, other)
            || (0 < fullMessageId && w.center - BELOW <= fullMessageId && other < fullMessageId)
            || (0 < fullMessageId == w.center - BELOW && other <= w.center))
  {
    var w', id := MaskBelow(w, fullMessageId), fullMessageId - 1;
    if 0 < fullMessageId && fullMessageId >= w.center - BELOW && other <= w'.center && other >= w'.center - BELOW {
      if id > w.center {
        assert w'.flags[FlagIndex(w', other)];
      } else if id >= w.center - BELOW {
        assert w'.flags[FlagIndex(w, other)] == (FlagIndex(w, other) <= FlagIndex(w, id) || w.flags[FlagIndex(w, other)]);
      } else {
        assert w'.flags[FlagIndex(w, other)];
      }
    }
  }

  lemma SetFlagKeeps(w: Window, fullMessageId: U16, other: U32)
    requires Inv(w)
    ensures Inv(SetFlag(w, fullMessageId)) && (Consumed(w, other) ==> Consumed(SetFlag(w, fullMessageId), other))
  {
  }

  /** Setting the flag of an id uses up that id and those that fall below the window; below the window, its center instead. */
  lemma SetFlagMeaning(w: Window, fullMessageId: U16, other: U32)
    requires Inv(w)
    ensures var w' := SetFlag(w, fullMessageId);
      var marked := if fullMessageId >= w.center - BELOW then fullMessageId else w.center;
      && w'.center == Max(w.center, fullMessageId)
      && (Consumed(w', other) <==> Consumed(w, other) || other == marked || other < w'.center - BELOW)
  {
  }

  lemma NextIdStays(w: Window, id: U32)
    requires Inv(w) && Within(w, id)
    ensures if id < 0xFFFF then NextId16(id) == id + 1
            else NextId16(id) == 0 || NextId16(id) < w.center - BELOW
  {
    WithinMeaning(w, id);
  }

  /** An applied id is used up, and with it every id below, exactly when it is below UINT16_MAX; else nothing changes. */
  lemma AppliedIsUsedUpIff(check: Check, w: Window, m: Message, other: U32)
    requires Inv(w) && Least(w, IdCheck(check, m)).Some?
    ensures var id := Least(w, IdCheck(check, m)).value; var (w', r) := Apply(check, w, m);
      && r == Applied(id) && !Consumed(w, id) && Inv(w')
      && (Consumed(w', id) <==> id < 0xFFFF)
      && (id < 0xFFFF ==> (Consumed(w', other) <==> other <= id || Consumed(w, other)))
      && (id >= 0xFFFF ==> w' == w)
  {
    var id := Least(w, IdCheck(check, m)).value;
    LeastIsFresh(w, IdCheck(check, m));
    WithinMeaning(w, id);
    NextIdStays(w, id);
    hide Least, Consumed, NextId16;
    if id < 0xFFFF {
      MaskBelowMeaning(w, NextId16(id), id);
      MaskBelowMeaning(w, NextId16(id), other);
    }
  }

  /** A code with id 65535 and a window where it is applied as often as it is entered. */
  lemma TopIdAppliesAgain()
    ensures var w := Window(65530, seq(BELOW + 1, _ => true), BELOW, ABOVE);
      var check: Check := b => if |b| > 0 && b[0] == 0xFF then 7 else 0;
      Inv(w) && Apply(check, w, Message(3, 0, 7)) == (w, Applied(0xFFFF))
  {
    var w := Window(65530, seq(BELOW + 1, _ => true), BELOW, ABOVE);
    var check: Check := b => if |b| > 0 && b[0] == 0xFF then 7 else 0;
    var m := Message(3, 0, 7);
    var id := Least(w, IdCheck(check, m));
    WithinMeaning(w, 0xFFFF);
    assert Usable(w, 0xFFFF) && IdCheck(check, m)(0xFFFF);
    assert id.Some?;
    WithinMeaning(w, id.value);
    assert IdCheck(check, m)(id.value) && id.value % 0x100 == 0xFF;
    AppliedIsUsedUpIff(check, w, m, 0);
  }

  // ---------------------------------------------------------------- the window in memory

  method MaskBelowMessageId(window: IdWindow, fullMessageId: U16)
    requires Inv(window.Value())
    modifies window`centerIndex, window.flags
    ensures window.Value() == MaskBelow(old(window.Value()), fullMessageId)
  {
    if fullMessageId == 0 || fullMessageId < window.centerIndex - BELOW {
      return;
    }
    var maxIdToMask: U16 := fullMessageId - 1;
    var maskIdIndex := UpdateWindow(window, maxIdToMask);
    SetFlagsUpTo(window, maskIdIndex);
    assert window.flags[..] == MaskBelow(old(window.Value()), fullMessageId).flags;
  }

  /** update_window_and_message_mask_id(): moves up to the id if needed; the flag index it finds for it. */
  method UpdateWindow(window: IdWindow, fullMessageId: U16) returns (maskIdIndex: U8)
    requires Inv(window.Value())
    modifies window`centerIndex, window.flags
    ensures var w := old(window.Value());
      && window.centerIndex == Max(w.center, fullMessageId)
      && window.flags[..] == (if fullMessageId > w.center then Moved(w.flags, fullMessageId - w.center) else w.flags)
      && maskIdIndex == if w.center - BELOW <= fullMessageId <= w.center then FlagIndex(w, fullMessageId) else BELOW
  {
    maskIdIndex := BELOW;
    var currentPd := window.centerIndex;
    if fullMessageId > currentPd {
      window.MoveFlags(fullMessageId - currentPd);
      window.centerIndex := fullMessageId;
    } else if fullMessageId >= currentPd - BELOW {
      maskIdIndex := BELOW - (currentPd - fullMessageId);
    }
  }

  method SetFlagsUpTo(window: IdWindow, maskIdIndex: nat)
    requires maskIdIndex < window.flags.Length
    modifies window.flags
    ensures window.flags[..] == FlagsUpTo(old(window.flags[..]), maskIdIndex)
  {
    for i := 0 to maskIdIndex + 1
      invariant forall k :: 0 <= k < i ==> window.flags[k]
      invariant forall k :: i <= k < window.flags.Length ==> window.flags[k] == old(window.flags[k])
    {
      window.flags[i] := true;
    }
  }

  method ApplyMessage(check: Check, window: IdWindow, m: Message) returns (r: Applied)
    requires Inv(window.Value())
    modifies window`centerIndex, window.flags
    ensures (window.Value(), r) == Apply(check, old(window.Value()), m)
  {
    ghost var w := window.Value();
    hide LeastFrom, MaskBelow;
    var id := window.SearchUp(IdCheck(check, m));
    assert id == Least(w, IdCheck(check, m));
    if id.None? {
      return Invalid;
    }
    MaskBelowMessageId(window, NextId16(id.value));
    r := Applied(id.value);
  }

  // ---------------------------------------------------------------- runs

  /** Extended codes among ordinary ones, which set one flag, mask below an id, or wipe the ids received. */
  datatype Event = Extended(m: Message) | Set(id: U16) | Mask(id: U16) | Wipe

  datatype Mark = Used(id: U32) | Wiped

  function Next(check: Check, w: Window, e: Event): (r: (Window, seq<Mark>))
    requires Inv(w)
  {
    match e
    case Extended(m) => var (w', a) := Apply(check, w, m); (w', if a.Applied? then [Used(a.id)] else [])
    case Set(id) => (SetFlag(w, id), [])
    case Mask(id) => (MaskBelow(w, id), [])
    case Wipe => (Blank(BELOW, ABOVE), [Wiped])
  }

  lemma BlankInv()
    ensures Inv(Blank(BELOW, ABOVE))
  {
  }

  lemma NextKeeps(check: Check, w: Window, e: Event, id: U32)
    requires Inv(w)
    ensures var (w', marks) := Next(check, w, e);
      && Inv(w') && |marks| <= 1
      && (e != Wipe && Consumed(w, id) ==> Consumed(w', id))
      && (marks == [Wiped] <==> e == Wipe)
      && (marks != [] && marks[0].Used? ==> !Consumed(w, marks[0].id) && (id <= marks[0].id < 0xFFFF ==> Consumed(w', id)))
  {
    hide Consumed, Least, MaskBelow, SetFlag, NextId16;
    match e
    case Extended(m) =>
      if Least(w, IdCheck(check, m)).Some? {
        AppliedIsUsedUpIff(check, w, m, id);
        MaskBelowMeaning(w, NextId16(Least(w, IdCheck(check, m)).value), id);
      }
    case Set(x) => SetFlagKeeps(w, x, id);
    case Mask(x) => MaskBelowMeaning(w, x, id);
    case Wipe => BlankInv();
  }

  /** The window after a run and its log of applied ids and wipes. */
  ghost function Run(check: Check, w: Window, es: seq<Event>): (r: (Window, seq<Mark>))
    requires Inv(w)
    ensures Inv(r.0)
  {
    if es == [] then (w, [])
    else
      var (w1, log) := Run(check, w, es[..|es| - 1]);
      NextKeeps(check, w1, es[|es| - 1], 0);
      var (w2, marks) := Next(check, w1, es[|es| - 1]);
      (w2, log + marks)
  }

  ghost predicate NoWipe(log: seq<Mark>, i: nat, j: nat) {
    j <= |log| && forall k :: i <= k < j ==> log[k].Used?
  }

  /** With no wipe since, an applied id below UINT16_MAX has used up everything up to it. */
  lemma {:induction false} UsedSinceWipe(check: Check, w: Window, es: seq<Event>, i: nat, id: U32)
    requires Inv(w)
    requires var log := Run(check, w, es).1; i < |log| && NoWipe(log, i, |log|) && id <= log[i].id < 0xFFFF
    ensures Consumed(Run(check, w, es).0, id)
  {
    var (w1, log) := Run(check, w, es[..|es| - 1]);
    var all := Run(check, w, es).1;
    NextKeeps(check, w1, es[|es| - 1], id);
    if i < |log| {
      assert forall k :: 0 <= k < |log| ==> all[k] == log[k];
      hide Next, Consumed;
      UsedSinceWipe(check, w, es[..|es| - 1], i, id);
      assert es[|es| - 1] == Wipe ==> all[|log|] == Wiped;
    }
  }

  /**
   * Over any run, from each wipe to the next: an extended code applied later has a larger id than any
   * applied before it with an id below UINT16_MAX.
   */
  lemma {:induction false} AppliedIdsIncrease(check: Check, w: Window, es: seq<Event>, i: nat, j: nat)
    requires Inv(w)
    requires var log := Run(check, w, es).1; i < j < |log| && NoWipe(log, i, j + 1) && log[i].id < 0xFFFF
    ensures Run(check, w, es).1[i].id < Run(check, w, es).1[j].id
  {
    var (w1, log) := Run(check, w, es[..|es| - 1]);
    var all := Run(check, w, es).1;
    assert forall k :: 0 <= k < |log| ==> all[k] == log[k];
    if j < |log| {
      AppliedIdsIncrease(check, w, es[..|es| - 1], i, j);
    } else {
      NextKeeps(check, w1, es[|es| - 1], 0);
      if all[j].id <= all[i].id {
        UsedSinceWipe(check, w, es[..|es| - 1], i, all[j].id);
      }
    }
  }

  /** After a wipe exactly the ids up to 63 can be used, whatever was applied before. */
  lemma WipeForgets(id: U32)
    ensures Usable(Blank(BELOW, ABOVE), id) <==> id <= 63
  {
    WithinMeaning(Blank(BELOW, ABOVE), id);
  }
}
