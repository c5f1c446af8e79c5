/**
 * The part of CBOR (RFC 7049) that secured messages use: definite-length items with heads as in
 * section 2.1, written in shortest form and read in any form.
 */
module Cbor {
  import opened Prelude

  type U64 = x: int | 0 <= x < 0x1_0000_0000_0000_0000
  type Major = x: int | 0 <= x < 8

  const UINT: Major := 0
  const BSTR: Major := 2
  const TSTR: Major := 3
  const ARRAY: Major := 4
  const MAP: Major := 5
  const TAG: Major := 6
  const SIMPLE: Major := 7

  // ---------------------------------------------------------------- big-endian numbers

  function Put16(n: U16): (b: Bytes)
    ensures |b| == 2
  {
    [n / 0x100, n % 0x100]
  }

  function Put32(n: U32): (b: Bytes)
    ensures |b| == 4
  {
    Put16(n / 0x1_0000) + Put16(n % 0x1_0000)
  }

  function Put64(n: U64): (b: Bytes)
    ensures |b| == 8
  {
    Put32(n / 0x1_0000_0000) + Put32(n % 0x1_0000_0000)
  }

  function Get16(b: Bytes, at: nat): (r: U16)
    requires at + 2 <= |b|
  {
    var hi: int, lo: int := b[at], b[at + 1];
    hi * 0x100 + lo
  }

  function Get32(b: Bytes, at: nat): (r: U32)
    requires at + 4 <= |b|
  {
    var hi: int, lo: int := Get16(b, at), Get16(b, at + 2);
    hi * 0x1_0000 + lo
  }

  function Get64(b: Bytes, at: nat): (r: U64)
    requires at + 8 <= |b|
  {
    var hi: int, lo: int := Get32(b, at), Get32(b, at + 4);
    hi * 0x1_0000_0000 + lo
  }

  // ---------------------------------------------------------------- heads

  /** Major type and argument of an item, and where its content starts. */
  datatype Head = Head(major: Major, arg: U64, next: nat)

  function EncodeHead(major: Major, n: U64): (b: Bytes)
    ensures 1 <= |b| <= 9 && (n < 24 ==> |b| == 1) && (24 <= n < 0x100 ==> |b| == 2)
    ensures 0x100 <= n ==> |b| >= 3
    ensures n < 0x1_0000_0000 ==> |b| <= 5
  {
    var m := 0x20 * major;
    if n < 24 then [m + n]
    else if n < 0x100 then [m + 24, n]
    else if n < 0x1_0000 then [m + 25] + Put16(n)
    else if n < 0x1_0000_0000 then [m + 26] + Put32(n)
    else [m + 27] + Put64(n)
  }

  /** Reads the head at a position; None when there is none, it is cut short, or it is not allowed. */
  function ReadHead(b: Bytes, at: nat): (r: Option<Head>)
    ensures r.Some? ==> at < r.value.next <= |b|
  {
    if at >= |b| then None
    else
      var major: Major, info, left := b[at] / 0x20, b[at] % 0x20, |b| - at - 1;
      if major == SIMPLE && (info < 20 || info > 27 || (info == 24 && left >= 1 && b[at + 1] < 32)) then None
      else if info < 24 then Some(Head(major, info, at + 1))
      else if info == 24 && left >= 1 then Some(Head(major, b[at + 1], at + 2))
      else if info == 25 && left >= 2 then Some(Head(major, Get16(b, at + 1), at + 3))
      else if info == 26 && left >= 4 then Some(Head(major, Get32(b, at + 1), at + 5))
      else if info == 27 && left >= 8 then Some(Head(major, Get64(b, at + 1), at + 9))
      else None
  }

  lemma GetPut32(n: U32, pre: Bytes, post: Bytes)
    ensures Get32(pre + Put32(n) + post, |pre|) == n
  {
    var b := pre + Put32(n) + post;
    assert b[|pre|] == n / 0x1_0000 / 0x100 && b[|pre| + 1] == n / 0x1_0000 % 0x100;
    assert b[|pre| + 2] == n % 0x1_0000 / 0x100 && b[|pre| + 3] == n % 0x1_0000 % 0x100;
  }

  lemma GetPut64(n: U64, pre: Bytes, post: Bytes)
    ensures Get64(pre + Put64(n) + post, |pre|) == n
  {
    var hi, lo := n / 0x1_0000_0000, n % 0x1_0000_0000;
    GetPut32(hi, pre, Put32(lo) + post);
    GetPut32(lo, pre + Put32(hi), post);
    assert pre + Put64(n) + post == pre + Put32(hi) + (Put32(lo) + post);
    assert pre + Put64(n) + post == pre + Put32(hi) + Put32(lo) + post;
  }

  lemma Read32Head(pre: Bytes, major: Major, n: U32, post: Bytes)
    requires major != SIMPLE
    ensures ReadHead(pre + [0x20 * major + 26] + Put32(n) + post, |pre|) == Some(Head(major, n, |pre| + 5))
  {
    GetPut32(n, pre + [0x20 * major + 26], post);
    assert (pre + [0x20 * major + 26] + Put32(n) + post)[|pre|] == 0x20 * major + 26;
  }

  lemma Read64Head(pre: Bytes, major: Major, n: U64, post: Bytes)
    requires major != SIMPLE
    ensures ReadHead(pre + [0x20 * major + 27] + Put64(n) + post, |pre|) == Some(Head(major, n, |pre| + 9))
  {
    GetPut64(n, pre + [0x20 * major + 27], post);
    assert (pre + [0x20 * major + 27] + Put64(n) + post)[|pre|] == 0x20 * major + 27;
  }

  lemma ReadShortHead(b: Bytes, pre: Bytes, major: Major, n: U16, post: Bytes)
    requires major != SIMPLE && b == pre + EncodeHead(major, n) + post
    ensures ReadHead(b, |pre|) == Some(Head(major, n, |pre| + |EncodeHead(major, n)|))
  {
    var h := EncodeHead(major, n);
    assert b[|pre|] == h[0];
    if n >= 24 { assert b[|pre| + 1] == h[1]; }
    if n >= 0x100 { assert b[|pre| + 2] == h[2]; }
  }

  /** Reading a written head gives back its major type and number, and stops right behind it. */
  lemma ReadEncodedHead(pre: Bytes, major: Major, n: U64, post: Bytes)
    requires major != SIMPLE
    ensures ReadHead(pre + EncodeHead(major, n) + post, |pre|) == Some(Head(major, n, |pre| + |EncodeHead(major, n)|))
  {
    var b := pre + EncodeHead(major, n) + post;
    hide ReadHead, Put32, Put64;
    if n >= 0x1_0000_0000 {
      Read64Head(pre, major, n, post);
      assert b == pre + [0x20 * major + 27] + Put64(n) + post;
    } else if n >= 0x1_0000 {
      Read32Head(pre, major, n, post);
      assert b == pre + [0x20 * major + 26] + Put32(n) + post;
    } else {
      ReadShortHead(b, pre, major, n, post);
    }
  }

  lemma ReadFirstHead(major: Major, n: U64, x: Bytes, b: Bytes)
    requires major != SIMPLE && b == EncodeHead(major, n) + x
    ensures ReadHead(b, 0) == Some(Head(major, n, |EncodeHead(major, n)|)) && x == b[|EncodeHead(major, n)|..]
  {
    ReadEncodedHead([], major, n, x);
    assert b == [] + EncodeHead(major, n) + x;
  }

  /** A head is told apart from what follows it. */
  lemma HeadsAreSelfDelimiting(major: Major, n: U64, x: Bytes, n': U64, x': Bytes, b: Bytes)
    requires major != SIMPLE && b == EncodeHead(major, n) + x && b == EncodeHead(major, n') + x'
    ensures n == n' && x == x'
  {
    ReadFirstHead(major, n, x, b);
    ReadFirstHead(major, n', x', b);
  }

  /** The fewest bytes a head takes. */
  function HeadSize(n: U64): (r: nat) {
    if n < 24 then 1 else if n < 0x100 then 2 else if n < 0x1_0000 then 3 else if n < 0x1_0000_0000 then 5 else 9
  }

  lemma Put32Get32(b: Bytes, at: nat)
    requires at + 4 <= |b|
    ensures Put32(Get32(b, at)) == b[at..at + 4]
  {
    var hi, lo := Get16(b, at), Get16(b, at + 2);
    assert Get32(b, at) / 0x1_0000 == hi && Get32(b, at) % 0x1_0000 == lo;
    assert Put16(hi) == b[at..at + 2] && Put16(lo) == b[at + 2..at + 4];
  }

  /** A head read from the fewest bytes it takes is the head that is written for it, and only then. */
  lemma ShortestIffWritten(b: Bytes, at: nat)
    requires ReadHead(b, at).Some? && ReadHead(b, at).value.major != SIMPLE
    ensures var h := ReadHead(b, at).value;
      h.next - at == HeadSize(h.arg) <==> b[at..h.next] == EncodeHead(h.major, h.arg)
  {
    var h := ReadHead(b, at).value;
    assert b[at] == 0x20 * (b[at] / 0x20) + b[at] % 0x20;
    if h.next - at == 5 {
      Put32Get32(b, at + 1);
      assert b[at..h.next] == [b[at]] + b[at + 1..at + 5];
    } else if h.next - at == 9 {
      Put32Get32(b, at + 1);
      Put32Get32(b, at + 5);
      assert Get64(b, at + 1) / 0x1_0000_0000 == Get32(b, at + 1) && Get64(b, at + 1) % 0x1_0000_0000 == Get32(b, at + 5);
      assert b[at..h.next] == [b[at]] + (b[at + 1..at + 5] + b[at + 5..at + 9]);
    } else if h.next - at == 3 {
      assert b[at..h.next] == [b[at]] + Put16(Get16(b, at + 1));
    }
  }

  function EncodeBytes(s: Bytes): (r: Bytes)
    requires |s| < 0x1_0000_0000_0000_0000
  {
    EncodeHead(BSTR, |s|) + s
  }

  lemma ByteStringsAreSelfDelimiting(s: Bytes, x: Bytes, s': Bytes, x': Bytes)
    requires |s| < 0x1_0000_0000_0000_0000 && |s'| < 0x1_0000_0000_0000_0000
    requires EncodeBytes(s) + x == EncodeBytes(s') + x'
    ensures s == s' && x == x'
  {
    var b := EncodeBytes(s) + x;
    assert b == EncodeHead(BSTR, |s|) + (s + x);
    assert b == EncodeHead(BSTR, |s'|) + (s' + x');
    HeadsAreSelfDelimiting(BSTR, |s|, s + x, |s'|, s' + x', b);
    assert s == (s + x)[..|s|] && s' == (s' + x')[..|s'|];
    assert x == (s + x)[|s|..] && x' == (s' + x')[|s'|..];
  }

  // ---------------------------------------------------------------- skipping items

  /** Skips n items starting at a position, descending at most depth levels; tags do not count as items. */
  function SkipItems(b: Bytes, at: nat, n: nat, depth: nat): (r: Option<nat>)
    requires at <= |b|
    ensures r.Some? ==> at <= r.value <= |b|
    decreases |b| - at, 0
  {
    if n == 0 then Some(at)
    else
      var h := ReadHead(b, at);
      if h.None? then None
      else if h.value.major == TAG then SkipItems(b, h.value.next, n, depth)
      else
        var next := SkipContent(b, h.value, depth);
        if next.None? then None else SkipItems(b, next.value, n - 1, depth)
  }

  /** From behind the head of an item to behind the item. */
  function SkipContent(b: Bytes, h: Head, depth: nat): (r: Option<nat>)
    requires h.next <= |b|
    ensures r.Some? ==> h.next <= r.value <= |b|
    decreases |b| - h.next, 1
  {
    if h.major == BSTR || h.major == TSTR then
      if h.arg <= |b| - h.next then Some(h.next + h.arg) else None
    else if h.major == ARRAY then
      if depth == 0 || h.arg >= UINT32_MAX then None else SkipItems(b, h.next, h.arg, depth - 1)
    else if h.major == MAP then
      if depth == 0 || h.arg > UINT32_MAX / 2 then None else SkipItems(b, h.next, 2 * h.arg, depth - 1)
    else Some(h.next)
  }
}
