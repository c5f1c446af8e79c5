/**
 * CBOR items as a data model (RFC 7049, section 2): what heads mean byte by byte, that skipping passes over
 * exactly one item, and which items secured messages are made of.
 */
module CborItems {
  import opened Prelude
  import opened Cbor
  import opened CoseMac0

  // ---------------------------------------------------------------- heads

  /** How many bytes behind the first one write the number of a head. */
  function Width(info: nat): (w: nat) {
    if info == 24 then 1 else if info == 25 then 2 else if info == 26 then 4 else if info == 27 then 8 else 0
  }

  /** The major type stands in the top three bits of the first byte, the number in the others or behind, big-endian. */
  ghost predicate IsHead(bytes: Bytes, major: Major, n: nat) {
    && bytes != [] && bytes[0] / 0x20 == major && bytes[0] % 0x20 <= 27
    && |bytes| == 1 + Width(bytes[0] % 0x20)
    && n == if bytes[0] % 0x20 < 24 then bytes[0] % 0x20 else BeValue(bytes[1..])
  }

  lemma PutMeaning(n: U64)
    ensures n < 0x100 ==> BeValue([n]) == n
    ensures n < 0x1_0000 ==> BeValue(Put16(n)) == n
    ensures n < 0x1_0000_0000 ==> BeValue(Put32(n)) == n
    ensures BeValue(Put64(n)) == n
  {
    hide Put16, Put32, BeValue;
    if n < 0x1_0000_0000 { PutNarrow(n); }
    PutNarrow(n % 0x1_0000_0000);
    PutNarrow(n / 0x1_0000_0000);
    BeValueConcat(Put32(n / 0x1_0000_0000), Put32(n % 0x1_0000_0000));
  }

  lemma PutNarrow(n: U32)
    ensures n < 0x100 ==> BeValue([n]) == n
    ensures n < 0x1_0000 ==> BeValue(Put16(n)) == n
    ensures BeValue(Put32(n)) == n
  {
    hide Put16, BeValue;
    if n < 0x1_0000 { PutTwo(n); }
    PutTwo(n % 0x1_0000);
    PutTwo(n / 0x1_0000);
    BeValueConcat(Put16(n / 0x1_0000), Put16(n % 0x1_0000));
  }

  lemma PutTwo(n: U16)
    ensures n < 0x100 ==> BeValue([n]) == n
    ensures BeValue(Put16(n)) == n
  {
    BeValueOfTwo(n / 0x100, n % 0x100);
    if n < 0x100 { BeValueOfTwo(n, 0); }
    hide BeValue;
  }

  /** The head written for a number is one for it, and no shorter one is. */
  lemma EncodeHeadMeaning(major: Major, n: U64, other: Bytes)
    ensures IsHead(EncodeHead(major, n), major, n)
    ensures IsHead(other, major, n) ==> |other| >= |EncodeHead(major, n)|
  {
    PutMeaning(n);
    var h := EncodeHead(major, n);
    assert h[0] / 0x20 == major && h[0] % 0x20 == h[0] - 0x20 * major;
    assert n >= 24 ==> h == [h[0]] + h[1..];
    if IsHead(other, major, n) { ShortValueIsSmall(other[1..]); }
    hide Put16, Put32, Put64, BeValue;
  }

  lemma ShortValueIsSmall(b: Bytes)
    ensures |b| == 1 ==> BeValue(b) < 0x100
    ensures |b| == 2 ==> BeValue(b) < 0x1_0000
    ensures |b| == 4 ==> BeValue(b) < 0x1_0000_0000
  {
    if |b| == 1 {
      assert b[..0] == [];
    } else if |b| == 2 {
      ShortValueIsSmall(b[..1]);
    } else if |b| == 4 {
      ShortValueIsSmall(b[..2]);
      ShortValueIsSmall(b[2..]);
      BeValueConcat(b[..2], b[2..]);
      assert b == b[..2] + b[2..];
    }
  }

  lemma GetMeaning(b: Bytes, at: nat)
    requires at < |b|
    ensures at + 2 <= |b| ==> Get16(b, at) == BeValue(b[at..at + 2])
    ensures at + 4 <= |b| ==> Get32(b, at) == BeValue(b[at..at + 4])
    ensures at + 8 <= |b| ==> Get64(b, at) == BeValue(b[at..at + 8])
  {
    if at + 2 <= |b| { GetTwo(b, at); }
    if at + 4 <= |b| { GetFour(b, at); }
    if at + 8 <= |b| {
      GetFour(b, at);
      GetFour(b, at + 4);
      hide Get32;
      BeValueConcat(b[at..at + 4], b[at + 4..at + 8]);
      assert b[at..at + 8] == b[at..at + 4] + b[at + 4..at + 8];
    }
  }

  lemma GetTwo(b: Bytes, at: nat)
    requires at + 2 <= |b|
    ensures Get16(b, at) == BeValue(b[at..at + 2])
  {
    BeValueOfTwo(b[at], b[at + 1]);
    assert b[at..at + 2] == [b[at], b[at + 1]];
    hide BeValue;
  }

  lemma GetFour(b: Bytes, at: nat)
    requires at + 4 <= |b|
    ensures Get32(b, at) == BeValue(b[at..at + 4])
  {
    GetTwo(b, at);
    GetTwo(b, at + 2);
    hide Get16;
    BeValueConcat(b[at..at + 2], b[at + 2..at + 4]);
    assert b[at..at + 4] == b[at..at + 2] + b[at + 2..at + 4];
  }

  /** Simple values below 20, and below 32 in a byte of their own, are not read; nor is indefinite length. */
  predicate Readable(b: Bytes, at: nat)
    requires at < |b|
  {
    var info := b[at] % 0x20;
    && info <= 27 && at + 1 + Width(info) <= |b|
    && (b[at] / 0x20 == 7 ==> info >= 20 && (info == 24 ==> b[at + 1] >= 32))
  }

  /** A head is read exactly when it is there in full and allowed, and it is read as what it means. */
  lemma ReadHeadMeaning(b: Bytes, at: nat)
    ensures ReadHead(b, at).Some? <==> at < |b| && Readable(b, at)
    ensures ReadHead(b, at).Some? ==>
      var h := ReadHead(b, at).value; IsHead(b[at..h.next], h.major, h.arg)
  {
    if at + 1 < |b| { GetMeaning(b, at + 1); }
    var r := ReadHead(b, at);
    if r.Some? {
      var h := b[at..r.value.next];
      assert h[0] == b[at] && h[1..] == b[at + 1..r.value.next];
      hide Get16, Get32, Get64, BeValue;
      if |h| == 2 {
        BeValueOfTwo(b[at + 1], 0);
        assert h[1..] == [b[at + 1]];
      }
    }
  }

  // ---------------------------------------------------------------- items

  /** Numbers are the unsigned and negative integers; the items of a map are its keys and values in turn. */
  datatype Item =
    | Number(negative: bool, n: U64)
    | ByteString(bytes: Bytes)
    | Text(bytes: Bytes)
    | List(items: seq<Item>)
    | Pairs(items: seq<Item>)
    | Tagged(tag: U64, item: Item)

  /** Sizes are those that can be counted in 32 bits, as the parser does for containers. */
  ghost predicate Countable(i: Item) {
    match i
    case Number(_, _) => true
    case ByteString(b) => SizeT(b)
    case Text(b) => SizeT(b)
    case List(items) => |items| < UINT32_MAX && forall k :: 0 <= k < |items| ==> Countable(items[k])
    case Pairs(items) => |items| % 2 == 0 && |items| < UINT32_MAX && forall k :: 0 <= k < |items| ==> Countable(items[k])
    case Tagged(_, item) => Countable(item)
  }

  ghost predicate AllCountable(items: seq<Item>) {
    forall k :: 0 <= k < |items| ==> Countable(items[k])
  }

  function Encoded(i: Item): (b: Bytes)
    requires Countable(i)
    decreases i
  {
    match i
    case Number(negative, n) => EncodeHead(if negative then 1 else UINT, n)
    case ByteString(b) => EncodeHead(BSTR, |b|) + b
    case Text(b) => EncodeHead(TSTR, |b|) + b
    case List(items) => EncodeHead(ARRAY, |items|) + EncodedAll(items)
    case Pairs(items) => EncodeHead(MAP, |items| / 2) + EncodedAll(items)
    case Tagged(n, item) => EncodeHead(TAG, n) + Encoded(item)
  }

  function EncodedAll(items: seq<Item>): (b: Bytes)
    requires AllCountable(items)
    decreases items
  {
    if items == [] then [] else Encoded(items[0]) + EncodedAll(items[1..])
  }

  /** How deep lists and maps are nested. */
  function Depth(i: Item): (d: nat)
    decreases i
  {
    match i
    case List(items) => 1 + DepthOfAll(items)
    case Pairs(items) => 1 + DepthOfAll(items)
    case Tagged(_, item) => Depth(item)
    case _ => 0
  }

  function DepthOfAll(items: seq<Item>): (d: nat)
    decreases items
  {
    if items == [] then 0 else Max(Depth(items[0]), DepthOfAll(items[1..]))
  }

  /** Skipping n + 1 items where one is written skips exactly that one, if it is not nested too deep, and then n. */
  lemma {:induction false} SkipsOneItem(b: Bytes, pre: Bytes, i: Item, post: Bytes, n: nat, depth: nat)
    requires Countable(i) && b == pre + Encoded(i) + post
    ensures |pre| + |Encoded(i)| <= |b|
    ensures SkipItems(b, |pre|, n + 1, depth) ==
      if Depth(i) <= depth then SkipItems(b, |pre| + |Encoded(i)|, n, depth) else None
    decreases i
  {
    hide ReadHead, EncodeHead, SkipItems, SkipContent;
    match i
    case Number(negative, m) => SkipsLeaf(b, pre, if negative then 1 else UINT, m, [], post, n, depth);
    case ByteString(s) => SkipsLeaf(b, pre, BSTR, |s|, s, post, n, depth);
    case Text(s) => SkipsLeaf(b, pre, TSTR, |s|, s, post, n, depth);
    case List(items) => SkipsWithin(b, pre, ARRAY, |items|, items, post, n, depth);
    case Pairs(items) => SkipsWithin(b, pre, MAP, |items| / 2, items, post, n, depth);
    case Tagged(m, item) =>
      var head := EncodeHead(TAG, m);
      assert Encoded(i) == head + Encoded(item) && Depth(i) == Depth(item);
      assert b == (pre + head) + Encoded(item) + post;
      hide Encoded, Depth;
      SkipsOneItem(b, pre + head, item, post, n, depth);
      SkipsTag(b, pre, m, Encoded(item) + post, n, depth);
  }

  lemma SkipsLeaf(b: Bytes, pre: Bytes, major: Major, m: U64, content: Bytes, post: Bytes, n: nat, depth: nat)
    requires major <= TSTR && content == (if major <= 1 then [] else content) && (major >= BSTR ==> m == |content|)
    requires b == pre + (EncodeHead(major, m) + content) + post
    ensures var end := |pre| + |EncodeHead(major, m) + content|;
      end <= |b| && SkipItems(b, |pre|, n + 1, depth) == SkipItems(b, end, n, depth)
  {
    hide ReadHead, EncodeHead;
    assert b == pre + EncodeHead(major, m) + (content + post);
    HeadAt(b, pre, major, m, content + post);
  }

  lemma SkipsContainer(b: Bytes, pre: Bytes, major: Major, m: U64, content: Bytes, post: Bytes, n: nat, depth: nat, inner: nat)
    requires major == ARRAY || major == MAP
    requires m < UINT32_MAX && (major == MAP ==> m <= UINT32_MAX / 2)
    requires b == pre + (EncodeHead(major, m) + content) + post
    requires var next := |pre| + |EncodeHead(major, m)|;
      depth > 0 ==>
        SkipItems(b, next, if major == MAP then 2 * m else m, depth - 1) ==
          if inner <= depth - 1 then SkipItems(b, next + |content|, 0, depth - 1) else None
    ensures var end := |pre| + |EncodeHead(major, m) + content|;
      end <= |b| && SkipItems(b, |pre|, n + 1, depth) == if 1 + inner <= depth then SkipItems(b, end, n, depth) else None
  {
    hide ReadHead, EncodeHead;
    assert b == pre + EncodeHead(major, m) + (content + post);
    HeadAt(b, pre, major, m, content + post);
    var next := |pre| + |EncodeHead(major, m)|;
    assert depth > 0 ==> SkipItems(b, next + |content|, 0, depth - 1) == Some(next + |content|);
    assert SkipContent(b, Head(major, m, next), depth) == if 1 + inner <= depth then Some(next + |content|) else None;
    hide SkipContent;
  }

  lemma SkipsTag(b: Bytes, pre: Bytes, m: U64, rest: Bytes, n: nat, depth: nat)
    requires b == pre + EncodeHead(TAG, m) + rest
    ensures SkipItems(b, |pre|, n + 1, depth) == SkipItems(b, |pre| + |EncodeHead(TAG, m)|, n + 1, depth)
  {
    hide ReadHead, EncodeHead, SkipContent;
    HeadAt(b, pre, TAG, m, rest);
  }

  lemma {:induction false} SkipsWithin(b: Bytes, pre: Bytes, major: Major, m: U64, items: seq<Item>, post: Bytes, n: nat, depth: nat)
    requires major == ARRAY || major == MAP
    requires m < UINT32_MAX && |items| == (if major == MAP then 2 * m else m) && (major == MAP ==> m <= UINT32_MAX / 2)
    requires AllCountable(items) && b == pre + (EncodeHead(major, m) + EncodedAll(items)) + post
    ensures var end := |pre| + |EncodeHead(major, m) + EncodedAll(items)|;
      end <= |b| && SkipItems(b, |pre|, n + 1, depth) == if 1 + DepthOfAll(items) <= depth then SkipItems(b, end, n, depth) else None
    decreases items, 1
  {
    hide EncodeHead, EncodedAll, DepthOfAll, SkipItems;
    var head := EncodeHead(major, m);
    assert b == (pre + head) + EncodedAll(items) + post;
    if depth > 0 { SkipsAll(b, pre + head, items, post, 0, depth - 1); }
    SkipsContainer(b, pre, major, m, EncodedAll(items), post, n, depth, DepthOfAll(items));
  }

  lemma {:induction false} SkipsAll(b: Bytes, pre: Bytes, items: seq<Item>, post: Bytes, n: nat, depth: nat)
    requires AllCountable(items) && b == pre + EncodedAll(items) + post
    ensures |pre| + |EncodedAll(items)| <= |b|
    ensures SkipItems(b, |pre|, |items| + n, depth) ==
      if DepthOfAll(items) <= depth then SkipItems(b, |pre| + |EncodedAll(items)|, n, depth) else None
    decreases items, 0
  {
    hide SkipItems;
    if items != [] {
      var first, rest := Encoded(items[0]), EncodedAll(items[1..]);
      assert b == pre + first + (rest + post) && b == (pre + first) + rest + post;
      SkipsOneItem(b, pre, items[0], rest + post, |items| - 1 + n, depth);
      SkipsAll(b, pre + first, items[1..], post, n, depth);
    }
  }

  // ---------------------------------------------------------------- secured messages as items

  /** The protected header is the map from 5 to the nonce. */
  lemma HeaderIsItem(nonce: U32)
    ensures var i := Pairs([Number(false, 5), Number(false, nonce)]); Countable(i) && Header(nonce) == Encoded(i)
  {
    var items := [Number(false, 5), Number(false, nonce)];
    assert items[1..] == [Number(false, nonce)] && items[1..][1..] == [];
    assert EncodedAll(items[1..]) == Encoded(items[1]) + [];
    assert EncodedAll(items) == Encoded(items[0]) + Encoded(items[1]);
    hide EncodeHead;
  }

  lemma FourItems(a: Item, b: Item, c: Item, d: Item)
    requires Countable(a) && Countable(b) && Countable(c) && Countable(d)
    ensures Countable(List([a, b, c, d]))
    ensures Encoded(List([a, b, c, d])) == EncodeHead(ARRAY, 4) + Encoded(a) + Encoded(b) + Encoded(c) + Encoded(d)
  {
    hide Encoded, EncodeHead;
    assert EncodedAll([d]) == Encoded(d) by { assert [d][1..] == []; }
    assert [c] + [d] == [c, d] && [b] + [c, d] == [b, c, d] && [a] + [b, c, d] == [a, b, c, d];
    OneMoreItem(c, [d]);
    OneMoreItem(b, [c, d]);
    OneMoreItem(a, [b, c, d]);
    ListIs([a, b, c, d]);
  }

  lemma OneMoreItem(first: Item, rest: seq<Item>)
    requires Countable(first) && AllCountable(rest)
    ensures AllCountable([first] + rest) && EncodedAll([first] + rest) == Encoded(first) + EncodedAll(rest)
  {
    assert ([first] + rest)[1..] == rest;
    hide Encoded;
  }

  lemma ListIs(items: seq<Item>)
    requires Countable(List(items))
    ensures Encoded(List(items)) == EncodeHead(ARRAY, |items|) + EncodedAll(items)
  {
  }

  /** What the MAC is computed over: the context "MAC0", the header, method and URI, and the payload, in this order. */
  lemma MacStructureIsItem(p: Params)
    requires Fits(p)
    ensures var aad := [p.method_] + p.uri;
      var i := List([Text([0x4D, 0x41, 0x43, 0x30]), ByteString(Header(p.nonce)), ByteString(aad), ByteString(p.payload)]);
      Countable(i) && MacStructure(p) == Encoded(i)
  {
    FourItems(Text(CONTEXT), ByteString(Header(p.nonce)), ByteString([p.method_] + p.uri), ByteString(p.payload));
    hide EncodeHead, Header;
    assert EncodeHead(ARRAY, 4) + EncodeHead(TSTR, 4) + CONTEXT == EncodeHead(ARRAY, 4) + (EncodeHead(TSTR, 4) + CONTEXT);
  }

  /** What is sent: the header, an empty map, the payload and the tag, in this order. */
  lemma MessageIsItem(nonce: U32, payload: Bytes, tag: Tag)
    requires SizeT(payload)
    ensures var i := List([ByteString(Header(nonce)), Pairs([]), ByteString(payload), ByteString(tag)]);
      Countable(i) && Message(nonce, payload, tag) == Encoded(i)
  {
    FourItems(ByteString(Header(nonce)), Pairs([]), ByteString(payload), ByteString(tag));
    hide EncodeHead, Header;
    assert Encoded(Pairs([])) == EncodeHead(MAP, 0) + [] == EncodeHead(MAP, 0);
  }
}
