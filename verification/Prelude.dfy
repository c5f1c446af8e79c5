/** Integer widths and the option type shared by every component. */
module Prelude {
  datatype Option<+T> = None | Some(value: T)

  type U8 = x: int | 0 <= x < 0x100
  type U16 = x: int | 0 <= x < 0x1_0000
  type U32 = x: int | 0 <= x < 0x1_0000_0000

  type Bytes = seq<U8>

  type Key = k: Bytes | |k| == 16 witness [0, 0, 0, 0, 0, 0, 0, 0, 0, 0, 0, 0, 0, 0, 0, 0]

  const ZERO_KEY: Key := [0, 0, 0, 0, 0, 0, 0, 0, 0, 0, 0, 0, 0, 0, 0, 0]

  /** An 8-byte check value; the function that makes it (SipHash 2-4) is a parameter everywhere. */
  type Tag = t: Bytes | |t| == 8 witness [0, 0, 0, 0, 0, 0, 0, 0]
  type Mac = (Key, Bytes) -> Tag

  const UINT32_MAX: U32 := 0xFFFF_FFFF

  /** Unsigned 32-bit addition, wrapping as the C code does. */
  function Add32(a: U32, b: U32): (r: U32) {
    (a + b) % 0x1_0000_0000
  }

  function Min(a: int, b: int): (r: int) {
    if a < b then a else b
  }

  function Max(a: int, b: int): (r: int) {
    if a < b then b else a
  }

  function Total(dts: seq<U32>): (s: nat) {
    if dts == [] then 0 else Total(dts[..|dts| - 1]) + dts[|dts| - 1]
  }

  /** The four bytes of a 32-bit number, least significant first. */
  function Le32(v: U32): (r: Bytes) {
    [v % 0x100, v / 0x100 % 0x100, v / 0x1_0000 % 0x100, v / 0x100_0000]
  }

  /** The number that bytes write, least significant first. */
  function LeValue(b: Bytes): (v: nat) {
    if b == [] then 0 else b[0] as int + 0x100 * LeValue(b[1..])
  }

  lemma LeValueOfFour(b: Bytes)
    requires |b| == 4
    ensures LeValue(b) == b[0] as int + 0x100 * b[1] as int + 0x1_0000 * b[2] as int + 0x100_0000 * b[3] as int
  {
    assert b[1..][1..] == b[2..] && b[2..][1..] == b[3..] && b[3..][1..] == [];
    assert LeValue(b[3..]) == b[3] as int;
    assert LeValue(b[2..]) == b[2] as int + 0x100 * b[3] as int;
  }

  lemma Le32Meaning(v: U32)
    ensures |Le32(v)| == 4 && LeValue(Le32(v)) == v
  {
    var q1: int := v / 0x100;
    var q2: int := q1 / 0x100;
    var q3: int := q2 / 0x100;
    assert v / 0x1_0000 == q2 && v / 0x100_0000 == q3;
    LeValueOfFour(Le32(v));
  }

  /** Bytes that write the same number, least significant first, are the same. */
  lemma {:induction false} LeValueInjective(a: Bytes, b: Bytes)
    requires |a| == |b| && LeValue(a) == LeValue(b)
    ensures a == b
  {
    if a != [] {
      var x: int, y: int := a[0], b[0];
      DivModIs(LeValue(a), 0x100, LeValue(a[1..]), x);
      DivModIs(LeValue(b), 0x100, LeValue(b[1..]), y);
      LeValueInjective(a[1..], b[1..]);
      assert a == [a[0]] + a[1..] && b == [b[0]] + b[1..];
    }
  }

  lemma LeValueOfTwo(b: Bytes)
    requires |b| == 2
    ensures LeValue(b) == b[0] as int + 0x100 * b[1] as int
  {
    assert b[1..][1..] == [];
    assert LeValue(b[1..]) == b[1] as int;
  }

  lemma Le32Injective(v: U32, w: U32)
    requires Le32(v) == Le32(w)
    ensures v == w
  {
    Le32Meaning(v);
    Le32Meaning(w);
  }

  /** The number that bytes write, most significant first. */
  function BeValue(b: Bytes): (v: nat) {
    if b == [] then 0 else 0x100 * BeValue(b[..|b| - 1]) + b[|b| - 1] as int
  }

  lemma BeValueOfTwo(x: U8, y: U8)
    ensures BeValue([x]) == x && BeValue([x, y]) == 0x100 * x as int + y as int
  {
    assert [x][..0] == [] && [x, y][..1] == [x];
  }

  lemma BeValueAppend(a: Bytes, x: U8)
    ensures BeValue(a + [x]) == 0x100 * BeValue(a) + x as int
  {
    assert (a + [x])[..|a|] == a;
  }

  lemma BeValueConcat(a: Bytes, b: Bytes)
    ensures |b| == 2 ==> BeValue(a + b) == 0x1_0000 * BeValue(a) + BeValue(b)
    ensures |b| == 4 ==> BeValue(a + b) == 0x1_0000_0000 * BeValue(a) + BeValue(b)
  {
    if |b| == 2 {
      AppendTwo(a, b[0], b[1]);
      assert b == [b[0], b[1]];
    } else if |b| == 4 {
      AppendTwo(a, b[0], b[1]);
      AppendTwo(a + [b[0], b[1]], b[2], b[3]);
      AppendTwo([b[0], b[1]], b[2], b[3]);
      BeValueOfTwo(b[0], b[1]);
      assert a + b == a + [b[0], b[1]] + [b[2], b[3]] && b == [b[0], b[1]] + [b[2], b[3]];
      hide BeValue;
    }
  }

  lemma AppendTwo(a: Bytes, x: U8, y: U8)
    ensures BeValue(a + [x, y]) == 0x1_0000 * BeValue(a) + BeValue([x, y])
  {
    BeValueAppend(a, x);
    BeValueAppend(a + [x], y);
    BeValueOfTwo(x, y);
    assert a + [x, y] == a + [x] + [y];
    hide BeValue;
  }

  /** One property of a decoded request or response. */
  datatype Rep = BytesRep(name: string, value: Bytes) | IntRep(name: string, number: int) | OtherRep(name: string)

  // ---------------------------------------------------------------- products and quotients

  lemma Products(a: nat, b: nat, c: nat, d: nat)
    requires a <= b && c <= d
    ensures a * c <= b * d
  {
    assert (b - a) * c >= 0 && b * (d - c) >= 0;
    assert b * d == a * c + (b - a) * c + b * (d - c);
  }

  lemma DivModIs(a: nat, n: nat, q: nat, r: nat)
    requires n > 0 && a == q * n + r && r < n
    ensures a / n == q && a % n == r
  {
    var q', r' := a / n, a % n;
    assert a == q' * n + r';
    assert (q - q') * n == r' - r;
    MultipleIsLarge(q - q', n);
  }

  lemma MultipleIsLarge(d: int, n: int)
    requires n >= 0
    ensures d > 0 ==> d * n >= n
    ensures d < 0 ==> d * n <= -n
  {
    if d > 0 {
      assert (d - 1) * n >= 0;
    } else if d < 0 {
      assert (-d - 1) * n >= 0;
    }
  }
}
