/**
 * Origin commands typed in as decimal digits: an obscured type digit and body, then six digits of
 * MAC. The MAC seeds the bytes that obscure the rest.
 */
module OriginCommand {
  import opened Prelude

  type Digit = d: int | 0 <= d < 10

  const MAC_DIGITS := 6
  const MAX_DIGITS := 20

  const MAX_BODY := 14

  type Stream = s: Bytes | |s| == MAX_BODY witness [0, 0, 0, 0, 0, 0, 0, 0, 0, 0, 0, 0, 0, 0]

  /** The bytes a MAC reveals with: eight pseudorandom ones, then whatever lies behind them in memory. */
  type Prng = U32 -> Stream

  datatype Message = Message(type_: Digit, body: U32, auth: U32)

  datatype Outcome = Parsed(message: Message) | Rejected

  /** How many body digits a command type has; None for a type that is not supported. */
  function BodyDigits(type_: Digit): (r: Option<nat>) {
    match type_
    case 0 => Some(2)
    case 1 => Some(1)
    case 2 => Some(1)
    case 9 => Some(6)
    case _ => None
  }

  // ---------------------------------------------------------------- digits and numbers

  function Pow10(n: nat): (p: nat)
    ensures p > 0
  {
    if n == 0 then 1 else 10 * Pow10(n - 1)
  }

  function Number(d: seq<Digit>): (n: nat)
    ensures n < Pow10(|d|)
  {
    if d == [] then 0 else 10 * Number(d[..|d| - 1]) + d[|d| - 1]
  }

  /** The n lowest decimal digits of a number, leading zeros kept. */
  function DigitsOf(v: nat, n: nat): (d: seq<Digit>)
    ensures |d| == n
  {
    if n == 0 then [] else DigitsOf(v / 10, n - 1) + [v % 10]
  }

  lemma {:induction false} NumberOfDigits(v: nat, n: nat)
    requires v < Pow10(n)
    ensures Number(DigitsOf(v, n)) == v
  {
    if n > 0 {
      NumberOfDigits(v / 10, n - 1);
      assert DigitsOf(v, n)[..n - 1] == DigitsOf(v / 10, n - 1);
    }
  }

  lemma {:induction false} DigitsOfNumber(d: seq<Digit>)
    ensures DigitsOf(Number(d), |d|) == d
  {
    if d != [] {
      DigitsOfNumber(d[..|d| - 1]);
    }
  }

  /** The first digit counts most. */
  lemma {:induction false} FirstDigitCountsMost(x: Digit, rest: seq<Digit>)
    ensures Number([x] + rest) == x * Pow10(|rest|) + Number(rest)
  {
    if rest == [] {
      assert [x][..0] == [] && [x] + rest == [x];
    } else {
      var n := |rest| - 1;
      FirstDigitCountsMost(x, rest[..n]);
      assert ([x] + rest)[..n + 1] == [x] + rest[..n];
      TenTimes(x, Pow10(n));
    }
  }

  lemma TenTimes(x: int, p: int)
    ensures 10 * (x * p) == x * (10 * p)
  {
  }

  // ---------------------------------------------------------------- obscuring

  function Deinterleaved(prng: Prng, d: seq<Digit>, mac: U32): (r: seq<Digit>)
    requires |d| <= MAX_BODY
    ensures |r| == |d|
  {
    seq(|d|, i requires 0 <= i < |d| => (d[i] - prng(mac)[i]) % 10)
  }

  function Interleaved(prng: Prng, d: seq<Digit>, mac: U32): (r: seq<Digit>)
    requires |d| <= MAX_BODY
    ensures |r| == |d|
  {
    seq(|d|, i requires 0 <= i < |d| => (d[i] + prng(mac)[i]) % 10)
  }

  lemma Mod10Is(x: int, q: int, r: Digit)
    requires x == 10 * q + r
    ensures x % 10 == r
  {
  }

  lemma ModCancels(a: int, b: int)
    ensures ((a + b) % 10 - b) % 10 == a % 10
    ensures ((a - b) % 10 + b) % 10 == a % 10
  {
    Mod10Is((a + b) % 10 - b, a / 10 - (a + b) / 10, a % 10);
    Mod10Is((a - b) % 10 + b, a / 10 - (a - b) / 10, a % 10);
  }

  /** Under every MAC, obscuring is a bijection on digit strings. */
  lemma InterleavingIsABijection(prng: Prng, d: seq<Digit>, mac: U32)
    requires |d| <= MAX_BODY
    ensures Deinterleaved(prng, Interleaved(prng, d, mac), mac) == d
    ensures Interleaved(prng, Deinterleaved(prng, d, mac), mac) == d
  {
    forall i | 0 <= i < |d|
      ensures Deinterleaved(prng, Interleaved(prng, d, mac), mac)[i] == d[i]
      ensures Interleaved(prng, Deinterleaved(prng, d, mac), mac)[i] == d[i]
    {
      DigitComesBack(prng, d, mac, i);
    }
    hide Deinterleaved, Interleaved;
  }

  lemma DigitComesBack(prng: Prng, d: seq<Digit>, mac: U32, i: nat)
    requires |d| <= MAX_BODY && i < |d|
    ensures Deinterleaved(prng, Interleaved(prng, d, mac), mac)[i] == d[i]
    ensures Interleaved(prng, Deinterleaved(prng, d, mac), mac)[i] == d[i]
  {
    ModCancels(d[i], prng(mac)[i]);
  }

  // ---------------------------------------------------------------- what a command says

  /** The message in a string of digits: type digit, body and MAC must use up all digits. */
  function Parse(prng: Prng, d: seq<Digit>): (r: Outcome)
    requires |d| <= MAX_DIGITS
  {
    if |d| <= MAC_DIGITS then Rejected
    else
      var n := |d| - MAC_DIGITS;
      MacIsSmall(d[n..]);
      var mac := Number(d[n..]);
      ParseBody(Deinterleaved(prng, d[..n], mac), mac)
  }

  function ParseBody(plain: seq<Digit>, mac: U32): (r: Outcome)
    requires plain != []
  {
    if BodyDigits(plain[0]) != Some(|plain| - 1) then Rejected
    else
      BodyIsSmall(plain[1..]);
      Parsed(Message(plain[0], Number(plain[1..]), mac))
  }

  lemma MacIsSmall(d: seq<Digit>)
    requires |d| == MAC_DIGITS
    ensures Number(d) < 1000000
  {
    assert Pow10(3) == 1000 && Pow10(6) == 1000 * 1000;
  }

  lemma BodyIsSmall(d: seq<Digit>)
    requires |d| <= 6
    ensures Number(d) < 1000000
  {
    Pow10Grows(|d|, 6);
    assert Pow10(3) == 1000 && Pow10(6) == 1000 * 1000;
  }

  lemma {:induction false} Pow10Grows(a: nat, b: nat)
    requires a <= b
    ensures Pow10(a) <= Pow10(b)
  {
    if a < b { Pow10Grows(a, b - 1); }
  }

  ghost predicate Sendable(m: Message) {
    && BodyDigits(m.type_).Some?
    && m.body < Pow10(BodyDigits(m.type_).value)
    && m.auth < Pow10(MAC_DIGITS)
  }

  /** The digits the origin hands out for a message. */
  function Printed(prng: Prng, m: Message): (d: seq<Digit>)
    requires BodyDigits(m.type_).Some?
    ensures |d| <= 13
  {
    Interleaved(prng, [m.type_] + DigitsOf(m.body, BodyDigits(m.type_).value), m.auth) + DigitsOf(m.auth, MAC_DIGITS)
  }

  /** What is printed parses back to the same message. */
  lemma PrintThenParse(prng: Prng, m: Message)
    requires Sendable(m)
    ensures Parse(prng, Printed(prng, m)) == Parsed(m)
  {
    var n := BodyDigits(m.type_).value + 1;
    var plain := [m.type_] + DigitsOf(m.body, n - 1);
    var d := Printed(prng, m);
    NumberOfDigits(m.auth, MAC_DIGITS);
    NumberOfDigits(m.body, n - 1);
    InterleavingIsABijection(prng, plain, m.auth);
    assert d[..n] == Interleaved(prng, plain, m.auth) && d[n..] == DigitsOf(m.auth, MAC_DIGITS);
    assert plain[1..] == DigitsOf(m.body, n - 1);
  }

  lemma ParsedParts(prng: Prng, d: seq<Digit>)
    requires |d| <= MAX_DIGITS && Parse(prng, d).Parsed?
    ensures var n, m := |d| - MAC_DIGITS, Parse(prng, d).message;
      && n > 0 && |d[n..]| == MAC_DIGITS
      && var plain := Deinterleaved(prng, d[..n], m.auth);
        && BodyDigits(m.type_) == Some(|plain| - 1)
        && m.type_ == plain[0] && m.body == Number(plain[1..]) && m.auth == Number(d[n..])
  {
    hide Deinterleaved, Number, Pow10;
  }

  /** What parses is the printed form of what it parses to. */
  lemma ParseThenPrint(prng: Prng, d: seq<Digit>)
    requires |d| <= MAX_DIGITS && Parse(prng, d).Parsed?
    ensures Sendable(Parse(prng, d).message) && Printed(prng, Parse(prng, d).message) == d
  {
    var n := |d| - MAC_DIGITS;
    var m := Parse(prng, d).message;
    var plain := Deinterleaved(prng, d[..n], m.auth);
    ParsedParts(prng, d);
    hide Parse, ParseBody, Deinterleaved, Interleaved, DigitsOf, Number, Pow10;
    DigitsOfNumber(d[n..]);
    DigitsOfNumber(plain[1..]);
    InterleavingIsABijection(prng, d[..n], m.auth);
    assert [plain[0]] + plain[1..] == plain;
    assert d[..n] + d[n..] == d;
  }

  /** The digits a MAC hides: each one typed is the hidden one plus the MAC's byte at that place, modulo 10. */
  ghost predicate Hides(prng: Prng, mac: U32, plain: seq<Digit>, typed: seq<Digit>) {
    |plain| == |typed| <= MAX_BODY && forall i :: 0 <= i < |plain| ==> (plain[i] + prng(mac)[i]) % 10 == typed[i]
  }

  /**
   * What a command says: its last six digits are the MAC, which hides the others; of these the first is the type and
   * the rest the body.
   */
  lemma CommandFields(prng: Prng, d: seq<Digit>)
    requires |d| <= MAX_DIGITS && Parse(prng, d).Parsed?
    ensures var m := Parse(prng, d).message;
      && |d| > 6 && m.auth == Number(d[|d| - 6..])
      && exists plain: seq<Digit> ::
           Hides(prng, m.auth, plain, d[..|d| - 6]) && m.type_ == plain[0] && m.body == Number(plain[1..])
  {
    var n, m := |d| - MAC_DIGITS, Parse(prng, d).message;
    ParsedParts(prng, d);
    var plain := Deinterleaved(prng, d[..n], m.auth);
    InterleavingIsABijection(prng, d[..n], m.auth);
    var typed := Interleaved(prng, plain, m.auth);
    assert forall i :: 0 <= i < |plain| ==> typed[i] == (plain[i] + prng(m.auth)[i]) % 10;
    assert Hides(prng, m.auth, plain, d[..n]);
  }

  /** No two digit strings mean the same message. */
  lemma ParseInjective(prng: Prng, d: seq<Digit>, e: seq<Digit>)
    requires |d| <= MAX_DIGITS && |e| <= MAX_DIGITS && Parse(prng, d).Parsed? && Parse(prng, d) == Parse(prng, e)
    ensures d == e
  {
    ParseThenPrint(prng, d);
    ParseThenPrint(prng, e);
  }

  /** The type digit once the MAC has revealed it. */
  function TypeDigit(prng: Prng, d: seq<Digit>): (r: Digit)
    requires |d| > MAC_DIGITS
  {
    MacIsSmall(d[|d| - MAC_DIGITS..]);
    (d[0] - prng(Number(d[|d| - MAC_DIGITS..]))[0]) % 10
  }

  /**
   * Exactly the strings of 9, 8 and 13 digits with a type digit to match are messages, whatever the
   * bytes behind the pseudorandom ones are.
   */
  lemma ParsesIff(prng: Prng, d: seq<Digit>)
    requires |d| <= MAX_DIGITS
    ensures Parse(prng, d).Parsed? <==>
      || (|d| == 9 && TypeDigit(prng, d) == 0)
      || (|d| == 8 && TypeDigit(prng, d) in {1, 2})
      || (|d| == 13 && TypeDigit(prng, d) == 9)
  {
    hide Number, Pow10;
  }

  // ---------------------------------------------------------------- the digit cursor

  const UINT8_MAX: U32 := 0xFF

  class Digits {
    const chars: seq<Digit>
    var position: nat

    constructor (chars: seq<Digit>)
      ensures this.chars == chars && position == 0
    {
      this.chars := chars;
      position := 0;
    }

    ghost predicate Valid()
      reads this
    {
      position <= |chars|
    }

    function Remaining(): (r: nat)
      requires Valid()
      reads this
    {
      |chars| - position
    }

    /** nexus_digits_pull_uint32(), in 32 bits. */
    method PullUint32(count: U8) returns (value: U32)
      requires Valid() && count <= Remaining()
      modifies this
      ensures Valid() && position == old(position) + count
      ensures value == Number(chars[old(position)..position]) % 0x1_0000_0000
    {
      value := 0;
      ghost var pulled := chars[position..position + count];
      for i := 0 to count
        invariant value == Number(pulled[..i]) % 0x1_0000_0000 && position == old(position)
      {
        assert pulled[..i + 1][..i] == pulled[..i];
        TimesTenWraps(Number(pulled[..i]), chars[position + i]);
        value := (value * 10 + chars[position + i]) % 0x1_0000_0000;
      }
      assert pulled[..count] == pulled;
      position := position + count;
    }

    /** None stands for UINT32_MAX and the underrun flag. */
    method TryPullUint32(count: U8) returns (value: Option<U32>)
      requires Valid()
      modifies this
      ensures Valid() && (value.Some? <==> old(Remaining()) >= count)
      ensures value.Some? ==> position == old(position) + count && value.value == Number(chars[old(position)..position]) % 0x1_0000_0000
      ensures value.None? ==> position == old(position)
    {
      if Remaining() < count {
        return None;
      }
      var v := PullUint32(count);
      value := Some(v);
    }

    /** UINT8_MAX when digits run out or their number is larger. */
    method PullUint8(count: U8) returns (value: U32)
      requires Valid()
      modifies this
      ensures Valid() && position == old(position) + if old(Remaining()) < count then 0 else count
      ensures value == if old(Remaining()) < count then UINT8_MAX
                       else Min(Number(chars[old(position)..position]) % 0x1_0000_0000, UINT8_MAX)
      ensures count <= 2 && count <= old(Remaining()) ==> value == Number(chars[old(position)..position]) < 100
    {
      if Remaining() < count {
        return UINT8_MAX;
      }
      if count <= 2 {
        TwoDigitsAreSmall(chars[position..position + count]);
      }
      value := PullUint32(count);
      if value > UINT8_MAX {
        value := UINT8_MAX;
      }
    }
  }

  lemma TwoDigitsAreSmall(d: seq<Digit>)
    requires |d| <= 2
    ensures Number(d) < 100
  {
    assert Pow10(1) == 10 && Pow10(2) == 100;
    Pow10Grows(|d|, 2);
  }

  lemma TimesTenWraps(n: nat, d: Digit)
    ensures (n % 0x1_0000_0000 * 10 + d) % 0x1_0000_0000 == (n * 10 + d) % 0x1_0000_0000
  {
    var m, q, r := 0x1_0000_0000, n / 0x1_0000_0000, n % 0x1_0000_0000;
    var q', r' := (r * 10 + d) / m, (r * 10 + d) % m;
    assert n * 10 + d == (10 * q + q') * m + r';
    DivModIs(n * 10 + d, m, 10 * q + q', r');
  }

  /** _mathmod10() */
  method MathMod10(value: int) returns (r: Digit)
    ensures r == value % 10
  {
    var x := value;
    while x < 0
      invariant x % 10 == value % 10
      decreases -x
    {
      x := x + 10;
    }
    r := x % 10;
  }

  method DeinterleaveDigits(prng: Prng, interleaved: seq<Digit>, checkValue: U32) returns (plain: array<Digit>)
    requires MAC_DIGITS < |interleaved| <= MAX_DIGITS
    ensures fresh(plain)
    ensures var n := |interleaved| - MAC_DIGITS;
      plain[..] == Deinterleaved(prng, interleaved[..n], checkValue) + interleaved[n..]
  {
    var n := |interleaved| - MAC_DIGITS;
    var prngBytes := prng(checkValue);
    plain := new Digit[|interleaved|](_ => 0);
    ghost var body := Deinterleaved(prng, interleaved[..n], checkValue);
    for i := 0 to n
      invariant forall k :: 0 <= k < i ==> plain[k] == body[k]
    {
      plain[i] := MathMod10(interleaved[i] - prngBytes[i]);
    }
    for i := n to |interleaved|
      invariant forall k :: 0 <= k < n ==> plain[k] == body[k]
      invariant forall k :: n <= k < i ==> plain[k] == interleaved[k]
    {
      plain[i] := interleaved[i];
    }
  }

  predicate IsDigitChar(c: char) {
    '0' <= c <= '9'
  }

  /** The check of handle_ascii_origin_command(): at most 20 characters, all of them digits. */
  method ReadDigits(commandData: string) returns (d: Option<seq<Digit>>)
    ensures d.Some? <==> |commandData| <= MAX_DIGITS && forall i :: 0 <= i < |commandData| ==> '0' <= commandData[i] <= '9'
    ensures d.Some? ==> |d.value| == |commandData|
    ensures d.Some? ==> forall i :: 0 <= i < |commandData| ==> commandData[i] as int == '0' as int + d.value[i]
  {
    if |commandData| > MAX_DIGITS {
      return None;
    }
    var digits: seq<Digit> := [];
    for i := 0 to |commandData|
      invariant |digits| == i
      invariant forall k :: 0 <= k < i ==> IsDigitChar(commandData[k]) && commandData[k] as int == '0' as int + digits[k]
    {
      if !IsDigitChar(commandData[i]) {
        return None;
      }
      digits := digits + [commandData[i] as int - '0' as int];
    }
    d := Some(digits);
  }

  /** _nexus_channel_om_ascii_parse_message() */
  method ParseMessage(prng: Prng, commandDigits: seq<Digit>) returns (r: Outcome)
    requires |commandDigits| <= MAX_DIGITS
    ensures r == Parse(prng, commandDigits)
  {
    hide Number, Pow10, ParseBody, Deinterleaved;
    var command := new Digits(commandDigits);
    if command.Remaining() <= MAC_DIGITS {
      return Rejected;
    }
    var n := |commandDigits| - MAC_DIGITS;
    command.position := n;
    var auth := command.PullUint32(MAC_DIGITS);
    assert command.chars[n..command.position] == commandDigits[n..];
    MacIsSmall(commandDigits[n..]);
    var chars := DeinterleaveDigits(prng, commandDigits, auth);
    ghost var plain := Deinterleaved(prng, commandDigits[..n], auth);
    var digits := new Digits(chars[..]);
    assert digits.chars[..n] == plain;
    r := ReadBody(digits, auth);
  }

  /** The type digit and the body of that type; exactly the MAC digits must be left. */
  method ReadBody(digits: Digits, auth: U32) returns (r: Outcome)
    requires digits.position == 0 && MAC_DIGITS < |digits.chars| <= MAX_DIGITS
    modifies digits
    ensures r == ParseBody(digits.chars[..|digits.chars| - MAC_DIGITS], auth)
  {
    ghost var plain := digits.chars[..|digits.chars| - MAC_DIGITS];
    var type_ := digits.PullUint8(1);
    assert digits.chars[0..1] == [plain[0]] && Number([plain[0]]) == plain[0];
    hide Number, Pow10;
    var body: Option<U32> := None;
    match type_ {
      case 0 =>
        var action := digits.PullUint8(2);
        body := if action != UINT8_MAX then Some(action) else None;
      case 1 => body := digits.TryPullUint32(1);
      case 2 => body := digits.TryPullUint32(1);
      case 9 => body := digits.TryPullUint32(6);
      case _ =>
    }
    if body.None? || digits.Remaining() != MAC_DIGITS {
      return Rejected;
    }
    assert digits.chars[1..|plain|] == plain[1..];
    BodyIsSmall(plain[1..]);
    r := Parsed(Message(type_, body.value, auth));
  }
}
