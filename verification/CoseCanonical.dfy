/**
 * What reading accepts beyond what signing writes: which accepted messages are the signed form of what
 * is handed on, and when the bytes handed on are the payload.
 */
module CoseCanonical {
  import opened Prelude
  import opened Cbor
  import opened Links
  import opened CoseMac0

  // ---------------------------------------------------------------- the payload slice

  /** The bytes handed on as payload. */
  function Slice(d: Bytes, stale: Tag): (s: Bytes)
    requires Deserialize(d, stale).Ok?
  {
    PayloadInBounds(d, stale);
    var e := Deserialize(d, stale).value;
    d[e.payloadAt..e.payloadAt + e.payloadLen]
  }

  /** The payload the message carries. */
  function Content(d: Bytes, stale: Tag): (s: Bytes)
    requires Deserialize(d, stale).Ok?
  {
    PayloadHead(d, stale);
    var h := ReadHead(d, Deserialize(d, stale).value.payloadHead).value;
    d[h.next..h.next + h.arg]
  }

  lemma PayloadHead(d: Bytes, stale: Tag)
    requires Deserialize(d, stale).Ok?
    ensures var e := Deserialize(d, stale).value;
      && ReadHead(d, e.payloadHead).Some?
      && (var h := ReadHead(d, e.payloadHead).value;
          && h.major == BSTR && h.arg == e.payloadLen < 0xFF && h.next + h.arg <= |d|
          && e.payloadAt == e.payloadHead + HeadSize(h.arg) <= h.next)
  {
  }

  /** The end of the payload's length field that the shortest head would not have. */
  function Spill(d: Bytes, stale: Tag): (s: Bytes)
    requires Deserialize(d, stale).Ok?
  {
    PayloadHead(d, stale);
    var e := Deserialize(d, stale).value;
    d[e.payloadAt..ReadHead(d, e.payloadHead).value.next]
  }

  predicate Repeats(content: Bytes, spill: Bytes) {
    spill != [] && forall i :: 0 <= i < |content| ==> content[i] == spill[i % |spill|]
  }

  /** i modulo n, by taking n away. */
  function Wrapped(i: nat, n: nat): (r: nat)
    requires n > 0
    ensures r == i % n
  {
    if i < n then i else ModShift(i, n); Wrapped(i - n, n)
  }

  lemma {:induction false} ShiftedRepeats(content: Bytes, spill: Bytes, i: nat)
    requires spill != [] && i < |content| && content <= spill + content
    ensures content[i] == spill[Wrapped(i, |spill|)]
    decreases i
  {
    assert content[i] == (spill + content)[i];
    if i >= |spill| {
      ShiftedRepeats(content, spill, i - |spill|);
    }
  }

  lemma RepeatsShifted(content: Bytes, spill: Bytes, i: nat)
    requires spill != [] && i < |content| && Repeats(content, spill)
    ensures (spill + content)[i] == content[i]
  {
    if i >= |spill| {
      assert content[i] == spill[Wrapped(i, |spill|)];
      assert content[i - |spill|] == spill[Wrapped(i - |spill|, |spill|)];
    }
  }

  lemma ModShift(i: nat, n: nat)
    requires 0 < n <= i
    ensures (i - n) % n == i % n
  {
    DivModIs(i, n, (i - n) / n + 1, (i - n) % n);
  }

  /** Content read from too early on is the content exactly when it repeats what stands before it. */
  lemma ShiftedIffRepeats(content: Bytes, spill: Bytes)
    requires spill != []
    ensures content <= spill + content <==> Repeats(content, spill)
  {
    if Repeats(content, spill) {
      forall i | 0 <= i < |content| ensures (spill + content)[i] == content[i] { RepeatsShifted(content, spill, i); }
    }
    if content <= spill + content {
      forall i | 0 <= i < |content| ensures content[i] == spill[i % |spill|] { ShiftedRepeats(content, spill, i); }
    }
  }

  lemma EarlySlice(d: Bytes, at: nat, next: nat, len: nat)
    requires at <= next && next + len <= |d|
    ensures d[at..at + len] == d[next..next + len] <==> at == next || Repeats(d[next..next + len], d[at..next])
  {
    var content, spill := d[next..next + len], d[at..next];
    assert d[at..at + len] == (spill + content)[..len];
    hide Repeats;
    if at < next { ShiftedIffRepeats(content, spill); }
  }

  /**
   * The slice starts at the content exactly when the payload's head byte is the one of the shortest head for
   * its length. Otherwise the slice still equals the content when the content repeats the spilled end of its
   * length field, and only then.
   */
  lemma PayloadSliceIsRightIff(d: Bytes, stale: Tag)
    requires Deserialize(d, stale).Ok?
    ensures var e := Deserialize(d, stale).value;
      && e.payloadHead < |d|
      && (Spill(d, stale) == [] <==> d[e.payloadHead] % 0x20 == Min(e.payloadLen, 24))
      && (Slice(d, stale) == Content(d, stale) <==>
            d[e.payloadHead] % 0x20 == Min(e.payloadLen, 24) || Repeats(Content(d, stale), Spill(d, stale)))
  {
    hide Deserialize, ReadHead, Repeats, HeadSize;
    PayloadHead(d, stale);
    var e := Deserialize(d, stale).value;
    HeadByte(d, e.payloadHead);
    EarlySlice(d, e.payloadAt, ReadHead(d, e.payloadHead).value.next, e.payloadLen);
  }

  /** For lengths below 256 the low five bits of the head byte say whether the head is the shortest. */
  lemma HeadByte(d: Bytes, at: nat)
    requires ReadHead(d, at).Some?
    ensures at < |d|
    ensures var h := ReadHead(d, at).value;
      h.arg < 0x100 ==> (h.next == at + HeadSize(h.arg) <==> d[at] % 0x20 == Min(h.arg, 24))
  {
  }

  // ---------------------------------------------------------------- the heads of a message

  /** The heads a successful reading went over, and where the second and the third item start. */
  datatype Layout = Layout(root: Head, header: Head, second: nat, third: nat, payload: Head, tag: Head)

  /** Each head stands where the one before it, with its content, ends. */
  predicate Chained(d: Bytes, l: Layout) {
    && ReadHead(d, 0) == Some(l.root)
    && ReadHead(d, l.root.next) == Some(l.header)
    && l.second == l.header.next + l.header.arg
    && ReadHead(d, l.second).Some?
    && (ReadHead(d, l.second) == Some(Head(MAP, 0, l.second + 1)) ==> l.third == l.second + 1)
    && ReadHead(d, l.third) == Some(l.payload)
    && ReadHead(d, l.payload.next + l.payload.arg) == Some(l.tag)
  }

  /** What the heads of the third and the fourth item say of what was extracted. */
  predicate ExtractsTail(d: Bytes, at: nat, payload: Head, tag: Head, e: Extracted, stale: Tag) {
    && at == e.payloadHead && payload.major == BSTR && payload.arg == e.payloadLen < 0xFF
    && payload.next + payload.arg <= |d| && e.payloadAt == at + HeadSize(payload.arg)
    && tag.major == BSTR && 0 < tag.arg <= 8
    && tag.next + tag.arg <= |d| && e.tag == FilledTag(d[tag.next..tag.next + tag.arg], stale)
  }

  /** What the heads say of what was extracted. */
  predicate Extracts(d: Bytes, l: Layout, e: Extracted, stale: Tag) {
    && l.root.major == ARRAY && l.root.arg == 4
    && l.header.major == BSTR && l.header.arg <= MAX_HEADER && l.header.next <= l.second <= |d|
    && ParseHeader(d[l.header.next..l.second]) == Ok(e.nonce)
    && ExtractsTail(d, l.third, l.payload, l.tag, e, stale)
  }

  function HeadAtOr(d: Bytes, at: nat): (h: Head) {
    if ReadHead(d, at).Some? then ReadHead(d, at).value else Head(SIMPLE, 0, at)
  }

  /** The layout of a message whose third item starts at a position. */
  function LayoutOf(d: Bytes, third: nat): (l: Layout) {
    var root := HeadAtOr(d, 0);
    var header, payload := HeadAtOr(d, root.next), HeadAtOr(d, third);
    Layout(root, header, header.next + header.arg, third, payload, HeadAtOr(d, payload.next + payload.arg))
  }

  lemma EmptyMapIsSkipped(d: Bytes, at: nat)
    requires ReadHead(d, at) == Some(Head(MAP, 0, at + 1))
    ensures SkipContent(d, Head(MAP, 0, at + 1), MAX_RECURSIONS) == Some(at + 1)
  {
  }

  lemma RootSteps(d: Bytes, stale: Tag)
    requires Deserialize(d, stale).Ok?
    ensures var root, header := HeadAtOr(d, 0), HeadAtOr(d, HeadAtOr(d, 0).next);
      && ReadHead(d, 0) == Some(root) && root.major == ARRAY && root.arg == 4
      && ReadHead(d, root.next) == Some(header) && Deserialize(d, stale) == DeserializeFrom(d, header, stale)
  {
    hide ReadHead, DeserializeFrom;
  }

  lemma NonceSteps(d: Bytes, header: Head, e: Extracted, stale: Tag) returns (nonce: U32)
    requires header.next <= |d| && DeserializeFrom(d, header, stale) == Ok(e)
    ensures var second := header.next + header.arg;
      && header.major == BSTR && header.arg <= MAX_HEADER && second <= |d| && ReadHead(d, second).Some?
      && ParseHeader(d[header.next..second]) == Ok(nonce) && DeserializeRest(d, second, nonce, stale) == Ok(e)
  {
    hide ReadHead, ParseHeader, DeserializeRest;
    nonce := ParseHeader(d[header.next..header.next + header.arg]).value;
  }

  lemma LastSteps(d: Bytes, second: nat, nonce: U32, stale: Tag)
    requires ReadHead(d, second).Some? && DeserializeRest(d, second, nonce, stale).Ok?
    ensures var e := DeserializeRest(d, second, nonce, stale).value;
      && e.nonce == nonce
      && (ReadHead(d, second) == Some(Head(MAP, 0, second + 1)) ==> e.payloadHead == second + 1)
      && ReadHead(d, e.payloadHead).Some?
      && DeserializePayloadAndTag(d, e.payloadHead, nonce, stale) == Ok(e)
  {
    hide ReadHead, SkipContent;
    if ReadHead(d, second) == Some(Head(MAP, 0, second + 1)) { EmptyMapIsSkipped(d, second); }
  }

  lemma TailSteps(d: Bytes, at: nat, e: Extracted, stale: Tag)
    requires ReadHead(d, at).Some? && DeserializePayloadAndTag(d, at, e.nonce, stale) == Ok(e)
    ensures var p := HeadAtOr(d, at);
      var t := HeadAtOr(d, p.next + p.arg);
      ReadHead(d, at) == Some(p) && ReadHead(d, p.next + p.arg) == Some(t) && ExtractsTail(d, at, p, t, e, stale)
  {
    hide ReadHead, FilledTag;
  }

  lemma LayoutRead(d: Bytes, e: Extracted, stale: Tag)
    requires Deserialize(d, stale) == Ok(e)
    ensures Chained(d, LayoutOf(d, e.payloadHead)) && Extracts(d, LayoutOf(d, e.payloadHead), e, stale)
  {
    hide ReadHead, ParseHeader, Deserialize, DeserializeFrom, DeserializeRest, DeserializePayloadAndTag;
    hide ExtractsTail, HeadAtOr;
    RootSteps(d, stale);
    var header := HeadAtOr(d, HeadAtOr(d, 0).next);
    var nonce := NonceSteps(d, header, e, stale);
    LastSteps(d, header.next + header.arg, nonce, stale);
    TailSteps(d, e.payloadHead, e, stale);
  }

  /** A byte string of so many bytes stands at a position, whole. */
  predicate HasString(d: Bytes, at: nat, least: nat, most: nat) {
    ReadHead(d, at).Some? &&
    var h := ReadHead(d, at).value;
    h.major == BSTR && least <= h.arg <= most && h.next + h.arg <= |d|
  }

  function EndOfString(d: Bytes, at: nat): (end: nat)
    requires ReadHead(d, at).Some?
  {
    var h := ReadHead(d, at).value;
    h.next + h.arg
  }

  /** From the third item on: a payload of less than 255 bytes, then a tag of 1 to 8. */
  predicate EndsWell(d: Bytes, third: nat) {
    HasString(d, third, 0, 254) && HasString(d, EndOfString(d, third), 1, 8)
  }

  /** From the second item on: any map, nested at most as deep as the parser goes. */
  predicate GoesOnWell(d: Bytes, second: nat) {
    ReadHead(d, second).Some? && ReadHead(d, second).value.major == MAP &&
    var third := SkipContent(d, ReadHead(d, second).value, 1024);
    third.Some? && EndsWell(d, third.value)
  }

  /** A list of four that starts with a protected header of at most 7 bytes holding a nonce. */
  predicate IsReadable(d: Bytes) {
    ReadHead(d, 0).Some? && ReadHead(d, 0).value.major == ARRAY && ReadHead(d, 0).value.arg == 4 &&
    var first := ReadHead(d, 0).value.next;
    && HasString(d, first, 1, 7)
    && ParseHeader(d[ReadHead(d, first).value.next..EndOfString(d, first)]).Ok?
    && GoesOnWell(d, EndOfString(d, first))
  }

  lemma TailReadIff(d: Bytes, at: nat, nonce: U32, stale: Tag)
    requires ReadHead(d, at).Some?
    ensures DeserializePayloadAndTag(d, at, nonce, stale).Ok? <==> EndsWell(d, at)
  {
    hide ReadHead, FilledTag;
  }

  lemma RestReadIff(d: Bytes, at: nat, nonce: U32, stale: Tag)
    requires ReadHead(d, at).Some?
    ensures DeserializeRest(d, at, nonce, stale).Ok? <==> GoesOnWell(d, at)
  {
    var third := SkipContent(d, ReadHead(d, at).value, MAX_RECURSIONS);
    if third.Some? && ReadHead(d, third.value).Some? { TailReadIff(d, third.value, nonce, stale); }
    hide ReadHead, SkipContent, DeserializePayloadAndTag;
  }

  /** Exactly which messages are read, whatever is behind the fourth item. */
  lemma ReadIff(d: Bytes, stale: Tag)
    ensures Deserialize(d, stale).Ok? <==> IsReadable(d)
  {
    hide ReadHead, ParseHeader, DeserializeRest, GoesOnWell;
    if ReadHead(d, 0).Some? && ReadHead(d, ReadHead(d, 0).value.next).Some? {
      var h := ReadHead(d, ReadHead(d, 0).value.next).value;
      var second := h.next + h.arg;
      if ReadHead(d, second).Some? && h.major == BSTR && second <= |d| && ParseHeader(d[h.next..second]).Ok? {
        RestReadIff(d, second, ParseHeader(d[h.next..second]).value, stale);
      }
      NothingBehindTheEnd(d, second);
    }
  }

  lemma NothingBehindTheEnd(d: Bytes, at: nat)
    ensures at >= |d| ==> ReadHead(d, at).None?
    ensures GoesOnWell(d, at) ==> ReadHead(d, at).Some?
  {
    hide EndsWell;
  }

  /** The tag that is compared: the bytes of the message's tag and, if they are fewer than eight, a zero and old bytes. */
  lemma TagAsCompared(d: Bytes, stale: Tag)
    requires Deserialize(d, stale).Ok?
    ensures var e := Deserialize(d, stale).value;
      var l := LayoutOf(d, e.payloadHead);
      && 0 < l.tag.arg <= 8 && l.tag.next + l.tag.arg <= |d|
      && forall k :: 0 <= k < 8 ==>
           e.tag[k] == if k < l.tag.arg then d[l.tag.next + k] else if k == l.tag.arg then 0 else stale[k]
  {
    hide Deserialize, LayoutOf;
    LayoutRead(d, Deserialize(d, stale).value, stale);
  }

  // ---------------------------------------------------------------- messages in the form signing writes

  /** The header is the map from 5 to a number, in shortest heads, and nothing else. */
  predicate CanonicalHeader(h: Bytes) {
    var nonce := HeadAtOr(h, 2);
    && HeadAtOr(h, 0) == Head(MAP, 1, 1) && HeadAtOr(h, 1) == Head(UINT, 5, 2)
    && nonce.major == UINT && nonce.next == 2 + HeadSize(nonce.arg) == |h|
  }

  lemma WrittenHeader(n: U32)
    ensures CanonicalHeader(Header(n))
  {
    var h, m, l, k := Header(n), EncodeHead(MAP, 1), EncodeHead(UINT, 5), EncodeHead(UINT, n);
    assert h == [] + m + (l + k) == m + l + k + [];
    HeadSizeIsLength(UINT, n);
    hide ReadHead, EncodeHead, HeadSize;
    ReadEncodedHead([], MAP, 1, l + k);
    ReadEncodedHead(m, UINT, 5, k);
    ReadEncodedHead(m + l, UINT, n, []);
    assert |m| == |l| == 1;
  }

  lemma HeadSizeIsLength(major: Major, n: U64)
    ensures |EncodeHead(major, n)| == HeadSize(n)
  {
  }

  lemma CanonicalHeaderReads(h: Bytes)
    requires CanonicalHeader(h) && ParseHeader(h).Ok?
    ensures h == Header(ParseHeader(h).value)
  {
    assert ReadHead(h, 2).Some? && ParseHeader(h).value == ReadHead(h, 2).value.arg;
    hide ReadHead, EncodeHead, HeadSize;
    ShortestIffWritten(h, 0);
    ShortestIffWritten(h, 1);
    ShortestIffWritten(h, 2);
    assert HeadSize(1) == HeadSize(5) == 1 by { HeadSizes(); }
    assert h == h[0..1] + h[1..2] + h[2..|h|];
  }

  lemma HeadSizes()
    ensures forall n: U64 :: n < 24 ==> HeadSize(n) == 1
  {
  }

  /** Shortest heads, a canonical header, an empty map and a whole tag, to the end. */
  predicate Canonical(d: Bytes, third: nat) {
    var l := LayoutOf(d, third);
    && l.root.next == 1 && l.header.next == 2 <= l.second <= |d| && CanonicalHeader(d[2..l.second])
    && ReadHead(d, l.second) == Some(Head(MAP, 0, l.second + 1))
    && l.payload.next == third + HeadSize(l.payload.arg)
    && l.tag == Head(BSTR, 8, l.payload.next + l.payload.arg + 1) && |d| == l.tag.next + 8
  }

  lemma Assembled(d: Bytes, nonce: U32, payload: Bytes, tag: Tag, second: nat, at: nat)
    requires SizeT(payload) && 2 <= second < at && at + |payload| + 1 <= |d|
    requires d[..1] == EncodeHead(ARRAY, 4) && d[1..2] == EncodeHead(BSTR, |Header(nonce)|) && d[2..second] == Header(nonce)
    requires d[second..second + 1] == EncodeHead(MAP, 0) && d[second + 1..at] == EncodeHead(BSTR, |payload|)
    requires d[at..at + |payload|] == payload
    requires d[at + |payload|..at + |payload| + 1] == EncodeHead(BSTR, 8) && d[at + |payload| + 1..] == tag
    ensures d == Message(nonce, payload, tag)
  {
    hide EncodeHead, Header;
    var end := at + |payload|;
    assert d == d[..1] + (d[1..2] + d[2..second]) + d[second..second + 1] + (d[second + 1..at] + d[at..end])
      + (d[end..end + 1] + d[end + 1..]);
  }

  lemma CanonicalIsWritten(d: Bytes, e: Extracted, stale: Tag)
    requires Canonical(d, e.payloadHead) && e.payloadAt + e.payloadLen <= |d|
    requires Chained(d, LayoutOf(d, e.payloadHead)) && Extracts(d, LayoutOf(d, e.payloadHead), e, stale)
    ensures |d[e.payloadAt..e.payloadAt + e.payloadLen]| < 0xFF
    ensures d == Message(e.nonce, d[e.payloadAt..e.payloadAt + e.payloadLen], e.tag)
  {
    hide ReadHead, EncodeHead, Header, ParseHeader, CanonicalHeader, HeadSize, Message;
    var l := LayoutOf(d, e.payloadHead);
    CanonicalHeaderReads(d[2..l.second]);
    HeadSizes();
    ShortestIffWritten(d, 0);
    ShortestIffWritten(d, 1);
    ShortestIffWritten(d, l.second);
    ShortestIffWritten(d, l.third);
    ShortestIffWritten(d, l.payload.next + l.payload.arg);
    assert |Header(e.nonce)| == l.header.arg;
    Assembled(d, e.nonce, d[e.payloadAt..e.payloadAt + e.payloadLen], e.tag, l.second, l.payload.next);
  }

  lemma HeadsOfTail(d: Bytes, pre: Bytes, payload: Bytes, tag: Tag)
    requires |payload| < 0xFF && d == pre + EncodeHead(MAP, 0) + EncodeBytes(payload) + EncodeBytes(tag)
    ensures var third := |pre| + 1;
      var at := third + |EncodeHead(BSTR, |payload|)|;
      && |d| == at + |payload| + 9
      && ReadHead(d, |pre|) == Some(Head(MAP, 0, third))
      && ReadHead(d, third) == Some(Head(BSTR, |payload|, at))
      && ReadHead(d, at + |payload|) == Some(Head(BSTR, 8, at + |payload| + 1))
  {
    hide ReadHead, EncodeHead;
    assert d == pre + EncodeHead(MAP, 0) + (EncodeBytes(payload) + EncodeBytes(tag));
    HeadAt(d, pre, MAP, 0, EncodeBytes(payload) + EncodeBytes(tag));
    PayloadReads(d, pre + EncodeHead(MAP, 0), payload, EncodeBytes(tag));
    TagReads(d, pre + EncodeHead(MAP, 0) + EncodeBytes(payload), tag);
  }

  lemma HeadsOfMessage(d: Bytes, nonce: U32, payload: Bytes, tag: Tag)
    requires |payload| < 0xFF && d == Message(nonce, payload, tag)
    ensures var h := Header(nonce);
      var third := 3 + |h|;
      var at := third + |EncodeHead(BSTR, |payload|)|;
      && ReadHead(d, 0) == Some(Head(ARRAY, 4, 1)) && ReadHead(d, 1) == Some(Head(BSTR, |h|, 2))
      && |d| == at + |payload| + 9 && d[2..2 + |h|] == h
      && ReadHead(d, 2 + |h|) == Some(Head(MAP, 0, third))
      && ReadHead(d, third) == Some(Head(BSTR, |payload|, at))
      && ReadHead(d, at + |payload|) == Some(Head(BSTR, 8, at + |payload| + 1))
  {
    hide ReadHead, EncodeHead, Header;
    var post := EncodeHead(MAP, 0) + EncodeBytes(payload) + EncodeBytes(tag);
    var pre := EncodeHead(ARRAY, 4) + EncodeBytes(Header(nonce));
    assert d == pre + post;
    MessagePrefix(d, nonce, post);
    hide EncodeBytes, Message;
    HeadsOfTail(d, pre, payload, tag);
  }

  lemma LayoutIs(d: Bytes, l: Layout, h: U8, len: U8)
    requires Chained(d, l)
    requires ReadHead(d, 0) == Some(Head(ARRAY, 4, 1)) && ReadHead(d, 1) == Some(Head(BSTR, h, 2))
    requires ReadHead(d, 2 + h) == Some(Head(MAP, 0, 3 + h))
    requires var at := 3 + h + HeadSize(len);
      ReadHead(d, 3 + h) == Some(Head(BSTR, len, at)) && ReadHead(d, at + len) == Some(Head(BSTR, 8, at + len + 1))
    ensures var at := 3 + h + HeadSize(len);
      l == Layout(Head(ARRAY, 4, 1), Head(BSTR, h, 2), 2 + h, 3 + h, Head(BSTR, len, at), Head(BSTR, 8, at + len + 1))
  {
    hide ReadHead, HeadSize;
  }

  lemma WrittenIsCanonical(d: Bytes, l: Layout, nonce: U32, payload: Bytes, tag: Tag)
    requires |payload| < 0xFF && d == Message(nonce, payload, tag) && Chained(d, l) && l == LayoutOf(d, l.third)
    ensures Canonical(d, l.third)
  {
    hide ReadHead, EncodeHead, Header, CanonicalHeader, HeadSize, LayoutOf, Message;
    HeadsOfMessage(d, nonce, payload, tag);
    HeadSizeIsLength(BSTR, |payload|);
    LayoutIs(d, l, |Header(nonce)|, |payload|);
    WrittenHeader(nonce);
  }

  /**
   * What reading takes is the form signing writes for the nonce, payload and tag it hands on exactly when
   * all heads are the shortest, the label is 5, the unprotected map is empty, the tag is whole and nothing follows.
   */
  lemma CanonicalIff(d: Bytes, stale: Tag)
    requires Deserialize(d, stale).Ok?
    ensures var e := Deserialize(d, stale).value;
      && |Slice(d, stale)| < 0xFF
      && (d == Message(e.nonce, Slice(d, stale), e.tag) <==> Canonical(d, e.payloadHead))
  {
    PayloadInBounds(d, stale);
    var e := Deserialize(d, stale).value;
    LayoutRead(d, e, stale);
    hide Deserialize, Canonical, Message, Chained, Extracts;
    if Canonical(d, e.payloadHead) {
      CanonicalIsWritten(d, e, stale);
    }
    if d == Message(e.nonce, Slice(d, stale), e.tag) {
      WrittenIsCanonical(d, LayoutOf(d, e.payloadHead), e.nonce, Slice(d, stale), e.tag);
    }
  }

  /** An accepted message is the signed form of what it is accepted as exactly when it is canonical. */
  lemma AcceptedIsSignedForm(mac: Mac, key: Key, method_: U8, uri: Bytes, d: Bytes, stale: Tag)
    requires |uri| <= 0xFF && VerifyOf(mac, key, method_, uri, d, stale).Ok?
    ensures Deserialize(d, stale).Ok?
    ensures d == Signed(mac, Vouched(mac, key, method_, uri, d, stale)) <==> Canonical(d, Deserialize(d, stale).value.payloadHead)
  {
    hide Deserialize, Canonical, Message, MacStructure;
    CanonicalIff(d, stale);
    AcceptedIsSigned(mac, key, method_, uri, d, stale, Vouched(mac, key, method_, uri, d, stale));
  }

  // ---------------------------------------------------------------- two accepted messages in other forms

  /** Reading a message with an empty unprotected map and a whole tag at the end, head by head. */
  lemma ReadHeads(d: Bytes, stale: Tag, h: nat, nonce: U32, len: U8, next: nat)
    requires 0 < h <= MAX_HEADER && len < 0xFF && 3 + h < next && |d| == next + len + 9 && ParseHeader(d[2..2 + h]) == Ok(nonce)
    requires ReadHead(d, 0) == Some(Head(ARRAY, 4, 1)) && ReadHead(d, 1) == Some(Head(BSTR, h, 2))
    requires ReadHead(d, 2 + h) == Some(Head(MAP, 0, 3 + h)) && ReadHead(d, 3 + h) == Some(Head(BSTR, len, next))
    requires ReadHead(d, next + len) == Some(Head(BSTR, 8, next + len + 1))
    ensures Deserialize(d, stale) == Ok(Extracted(nonce, 3 + h, 3 + h + HeadSize(len), len, d[next + len + 1..]))
  {
    hide ReadHead, ParseHeader;
    EmptyMapIsSkipped(d, 2 + h);
    assert d[next + len + 1..next + len + 9] == d[next + len + 1..];
    assert DeserializePayloadAndTag(d, 3 + h, nonce, stale)
      == Ok(Extracted(nonce, 3 + h, 3 + h + HeadSize(len), len, d[next + len + 1..]));
    hide DeserializePayloadAndTag, SkipContent;
    assert DeserializeRest(d, 2 + h, nonce, stale) == DeserializePayloadAndTag(d, 3 + h, nonce, stale);
    hide DeserializeRest;
    DeserializeGiven(d, stale, h, nonce);
  }

  lemma ShortHead(d: Bytes, at: nat, major: Major, n: U8)
    requires at < |d| && major < SIMPLE && n < 24 && d[at] == 0x20 * major + n
    ensures ReadHead(d, at) == Some(Head(major, n, at + 1))
  {
  }

  lemma OneByteHead(d: Bytes, at: nat, major: Major)
    requires at + 1 < |d| && major < SIMPLE && d[at] == 0x20 * major + 24
    ensures ReadHead(d, at) == Some(Head(major, d[at + 1], at + 2))
  {
  }

  lemma Cut(pre: Bytes, post: Bytes, i: nat, j: nat)
    requires i <= j <= |pre|
    ensures (pre + post)[i..j] == pre[i..j] && (pre + post)[|pre|..] == post
  {
  }

  /** The header from a label below 24 to 1. */
  lemma LabelHeader(h: Bytes, label_: U8)
    requires h == [0xA1, label_, 1] && label_ < 24
    ensures ParseHeader(h) == Ok(1)
  {
    hide ReadHead;
    ShortHead(h, 0, MAP, 1);
    ShortHead(h, 1, UINT, label_);
    ShortHead(h, 2, UINT, 1);
  }

  /** {5: 1}, a two-byte payload whose length takes a byte of its own, and a tag: the length is handed on. */
  lemma SpilledLength(tag: Tag, stale: Tag)
    ensures var d := [0x84, 0x43, 0xA1, 5, 1, 0xA0, 0x58, 2, 0xAA, 0xBB, 0x48] + tag;
      && Deserialize(d, stale) == Ok(Extracted(1, 6, 7, 2, tag))
      && Slice(d, stale) == [2, 0xAA] && Content(d, stale) == [0xAA, 0xBB]
  {
    hide ReadHead, ParseHeader, Deserialize;
    var pre := [0x84, 0x43, 0xA1, 5, 1, 0xA0, 0x58, 2, 0xAA, 0xBB, 0x48];
    var d := pre + tag;
    Cut(pre, tag, 2, 5);
    Cut(pre, tag, 7, 9);
    Cut(pre, tag, 8, 10);
    assert pre[2..5] == [0xA1, 5, 1] && pre[7..9] == [2, 0xAA] && pre[8..10] == [0xAA, 0xBB];
    LabelHeader(d[2..5], 5);
    ShortHead(d, 0, ARRAY, 4);
    ShortHead(d, 1, BSTR, 3);
    ShortHead(d, 5, MAP, 0);
    OneByteHead(d, 6, BSTR);
    ShortHead(d, 10, BSTR, 8);
    ReadHeads(d, stale, 3, 1, 2, 8);
  }

  lemma LabelIsFive(nonce: U32, payload: Bytes, tag: Tag)
    requires |payload| < 0xFF
    ensures |Message(nonce, payload, tag)| > 3 && Message(nonce, payload, tag)[3] == 5
  {
  }

  /** The header {6: 1} is read like {5: 1}. */
  lemma OtherLabel(tag: Tag, stale: Tag)
    ensures var d := [0x84, 0x43, 0xA1, 6, 1, 0xA0, 0x41, 0xAA, 0x48] + tag;
      Deserialize(d, stale) == Ok(Extracted(1, 6, 7, 1, tag)) && d != Message(1, [0xAA], tag)
  {
    hide ReadHead, ParseHeader, Deserialize, Message;
    var pre := [0x84, 0x43, 0xA1, 6, 1, 0xA0, 0x41, 0xAA, 0x48];
    var d := pre + tag;
    Cut(pre, tag, 2, 5);
    assert pre[2..5] == [0xA1, 6, 1];
    LabelHeader(d[2..5], 6);
    ShortHead(d, 0, ARRAY, 4);
    ShortHead(d, 1, BSTR, 3);
    ShortHead(d, 5, MAP, 0);
    ShortHead(d, 6, BSTR, 1);
    ShortHead(d, 8, BSTR, 8);
    ReadHeads(d, stale, 3, 1, 1, 7);
    LabelIsFive(1, [0xAA], tag);
  }
}
