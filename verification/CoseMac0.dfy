/** Secured messages: the COSE_Mac0 structure of RFC 8152 (sections 6.2 and 6.3) over CBOR. */
module CoseMac0 {
  import opened Prelude
  import opened Cbor
  import opened Links

  const MAX_URI: nat := 11
  const MAX_HEADER: nat := 7
  const MAX_AAD: nat := 14
  const MAX_MESSAGE: nat := 98
  const MAC_STRUCTURE_BUFFER: nat := 4 + MAX_HEADER + MAX_AAD + MAX_MESSAGE

  /** Aborted: an assertion of the parser library fails, so there is no defined result. */
  datatype Error = BufferTooSmall | CborEncoder | CborParser | InputDataInvalid | MacTagInvalid | Aborted
  datatype Result<+T> = Ok(value: T) | Err(error: Error)

  /** The size of a byte string that a size_t can hold. */
  ghost predicate SizeT(s: Bytes) {
    |s| < 0x1_0000_0000_0000_0000
  }

  datatype Params = Params(key: Key, nonce: U32, method_: U8, uri: Bytes, payload: Bytes)

  ghost predicate Fits(p: Params) {
    |p.uri| <= 0xFF && SizeT(p.payload)
  }

  // ---------------------------------------------------------------- the bytes

  /** "MAC0" */
  const CONTEXT: Bytes := [0x4D, 0x41, 0x43, 0x30]

  /** Protected header: the map {5: nonce}, as a little-endian host encodes it; only signing converts the byte order. */
  function Header(nonce: U32): (h: Bytes)
    ensures 3 <= |h| <= MAX_HEADER
  {
    EncodeHead(MAP, 1) + EncodeHead(UINT, 5) + EncodeHead(UINT, nonce)
  }

  /** ["MAC0", protected header, method and URI, payload] */
  function MacStructure(p: Params): (r: Bytes)
    requires Fits(p)
  {
    EncodeHead(ARRAY, 4) + EncodeHead(TSTR, 4) + CONTEXT
    + EncodeBytes(Header(p.nonce)) + EncodeBytes([p.method_] + p.uri) + EncodeBytes(p.payload)
  }

  /** [protected header, {}, payload, tag] */
  function Message(nonce: U32, payload: Bytes, tag: Tag): (r: Bytes)
    requires SizeT(payload)
  {
    EncodeHead(ARRAY, 4) + EncodeBytes(Header(nonce)) + EncodeHead(MAP, 0) + EncodeBytes(payload) + EncodeBytes(tag)
  }

  function MacStructureOf(p: Params): (r: Result<Bytes>)
    requires Fits(p)
  {
    if |p.uri| > MAX_URI then Err(InputDataInvalid)
    else if |MacStructure(p)| > MAC_STRUCTURE_BUFFER then Err(CborEncoder)
    else Ok(MacStructure(p))
  }

  function Signed(mac: Mac, p: Params): (r: Bytes)
    requires Fits(p)
  {
    Message(p.nonce, p.payload, mac(p.key, MacStructure(p)))
  }

  function SignOf(mac: Mac, p: Params, outputSize: nat): (r: Result<Bytes>)
    requires Fits(p)
  {
    if outputSize < MAX_MESSAGE then Err(BufferTooSmall)
    else
      var s := MacStructureOf(p);
      if s.Err? then Err(s.error)
      else if |Signed(mac, p)| > outputSize then Err(CborEncoder)
      else if |Signed(mac, p)| > MAX_MESSAGE then Err(InputDataInvalid)
      else Ok(Signed(mac, p))
  }

  /** Size of a signed message, by its parts. */
  lemma SignedSize(mac: Mac, p: Params)
    requires Fits(p)
    ensures |Signed(mac, p)| == 12 + |Header(p.nonce)| + |EncodeHead(BSTR, |p.payload|)| + |p.payload|
    ensures |p.payload| <= 77 ==> |Signed(mac, p)| <= MAX_MESSAGE
    ensures |p.payload| > 94 ==> |Signed(mac, p)| > MAX_MESSAGE
  {
  }

  /** Whenever the URI is short enough and the message fits, the MAC structure fits its buffer. */
  lemma MacStructureFits(p: Params)
    requires Fits(p) && |p.uri| <= MAX_URI
    ensures |p.payload| <= 94 ==> |MacStructure(p)| <= MAC_STRUCTURE_BUFFER
  {
  }

  /** Signing succeeds exactly for short URIs and messages within the size limit. */
  lemma SignSucceedsIff(mac: Mac, p: Params, outputSize: nat)
    requires Fits(p)
    ensures SignOf(mac, p, outputSize).Ok? <==>
      outputSize >= MAX_MESSAGE && |p.uri| <= MAX_URI
      && |Header(p.nonce)| + |EncodeHead(BSTR, |p.payload|)| + |p.payload| <= MAX_MESSAGE - 12
    ensures outputSize >= MAX_MESSAGE && |p.uri| <= MAX_URI && |p.payload| <= 77 ==> SignOf(mac, p, outputSize).Ok?
  {
    SignedSize(mac, p);
    if |p.uri| <= MAX_URI {
      MacStructureFits(p);
    }
  }

  /** Which error signing gives: for the buffer, the URI, a message that does not fit the buffer, or one over 98 bytes. */
  lemma SignErrors(mac: Mac, p: Params, outputSize: nat)
    requires Fits(p)
    ensures var r, size := SignOf(mac, p, outputSize), |Signed(mac, p)|;
      && (r == Err(BufferTooSmall) <==> outputSize < 98)
      && (outputSize >= 98 && |p.uri| > 11 ==> r == Err(InputDataInvalid))
      && (outputSize >= 98 && |p.uri| <= 11 ==>
            && (r == Err(CborEncoder) <==> |MacStructure(p)| > 123 || size > outputSize)
            && (r == Err(InputDataInvalid) <==> |MacStructure(p)| <= 123 && 98 < size <= outputSize)
            && (r == Ok(Signed(mac, p)) <==> size <= 98))
  {
    SignedSize(mac, p);
    if |p.payload| <= 94 && |p.uri| <= 11 { MacStructureFits(p); }
    hide MacStructure, Signed;
  }

  lemma AfterPrefix(pre: Bytes, x: Bytes, y: Bytes, z: Bytes)
    ensures (pre + x + y + z)[|pre|..] == x + (y + z)
  {
  }

  lemma ThreeByteStringsInjective(pre: Bytes, x: Bytes, y: Bytes, z: Bytes, x': Bytes, y': Bytes, z': Bytes)
    requires SizeT(x) && SizeT(y) && SizeT(z) && SizeT(x') && SizeT(y') && SizeT(z')
    requires pre + EncodeBytes(x) + EncodeBytes(y) + EncodeBytes(z) == pre + EncodeBytes(x') + EncodeBytes(y') + EncodeBytes(z')
    ensures x == x' && y == y' && z == z'
  {
    hide EncodeBytes;
    AfterPrefix(pre, EncodeBytes(x), EncodeBytes(y), EncodeBytes(z));
    AfterPrefix(pre, EncodeBytes(x'), EncodeBytes(y'), EncodeBytes(z'));
    ByteStringsAreSelfDelimiting(x, EncodeBytes(y) + EncodeBytes(z), x', EncodeBytes(y') + EncodeBytes(z'));
    ByteStringsAreSelfDelimiting(y, EncodeBytes(z), y', EncodeBytes(z'));
    assert EncodeBytes(z) + [] == EncodeBytes(z') + [];
    ByteStringsAreSelfDelimiting(z, [], z', []);
  }

  /** Different messages are never authenticated as the same bytes. */
  lemma MacStructureInjective(p: Params, q: Params)
    requires Fits(p) && Fits(q) && MacStructure(p) == MacStructure(q)
    ensures p.nonce == q.nonce && p.method_ == q.method_ && p.uri == q.uri && p.payload == q.payload
  {
    var pre := EncodeHead(ARRAY, 4) + EncodeHead(TSTR, 4) + CONTEXT;
    ThreeByteStringsInjective(pre, Header(p.nonce), [p.method_] + p.uri, p.payload,
                              Header(q.nonce), [q.method_] + q.uri, q.payload);
    HeaderInjective(p.nonce, q.nonce);
    assert p.uri == ([p.method_] + p.uri)[1..] && q.uri == ([q.method_] + q.uri)[1..];
  }

  lemma HeaderInjective(m: U32, n: U32)
    requires Header(m) == Header(n)
    ensures m == n
  {
    var pre := EncodeHead(MAP, 1) + EncodeHead(UINT, 5);
    assert EncodeHead(UINT, m) == Header(m)[|pre|..] && EncodeHead(UINT, n) == Header(n)[|pre|..];
    HeadsAreSelfDelimiting(UINT, m, [], n, [], EncodeHead(UINT, m));
  }

  // ---------------------------------------------------------------- reading a message back

  /** payloadHead is where the payload's item starts, payloadAt the first byte handed on as payload. */
  datatype Extracted = Extracted(nonce: U32, payloadHead: nat, payloadAt: nat, payloadLen: nat, tag: Tag)

  const MAX_RECURSIONS: nat := 1024

  /** The nonce of a protected header. The label is not compared with 5, only required to be an integer. */
  function ParseHeader(h: Bytes): (r: Result<U32>) {
    var root := ReadHead(h, 0);
    if root.None? then Err(CborParser)
    else if root.value.major != MAP || root.value.arg == 0 then Err(InputDataInvalid)
    else if root.value.arg > UINT32_MAX / 2 then Err(CborParser)
    else
      var key_ := ReadHead(h, root.value.next);
      if key_.None? then Err(CborParser)
      else if key_.value.major > 1 then Err(InputDataInvalid)
      else
        var nonce := ReadHead(h, key_.value.next);
        if nonce.None? || nonce.value.major > 1 then Err(InputDataInvalid)
        else if nonce.value.major == 1 then Err(Aborted)
        else if nonce.value.arg > UINT32_MAX then Err(InputDataInvalid)
        else if root.value.arg == 1 then Ok(nonce.value.arg)
        else if ReadHead(h, nonce.value.next).None? then Err(CborParser)
        else Err(Aborted)
  }

  /** The four items of a message; stale is what the tag field held before it was filled. */
  function Deserialize(d: Bytes, stale: Tag): (r: Result<Extracted>) {
    var root := ReadHead(d, 0);
    if root.None? || root.value.major != ARRAY then Err(CborParser)
    else if root.value.arg != 4 then Err(InputDataInvalid)
    else
      var first := ReadHead(d, root.value.next);
      if first.None? then Err(CborParser) else DeserializeFrom(d, first.value, stale)
  }

  /** From the protected header on, whose head was read. */
  function DeserializeFrom(d: Bytes, h: Head, stale: Tag): (r: Result<Extracted>)
    requires h.next <= |d|
  {
    if h.major != BSTR || h.arg == 0 || h.arg > |d| - h.next || ReadHead(d, h.next + h.arg).None? || h.arg > MAX_HEADER
    then Err(InputDataInvalid)
    else
      var nonce := ParseHeader(d[h.next..h.next + h.arg]);
      if nonce.Err? then Err(nonce.error)
      else DeserializeRest(d, h.next + h.arg, nonce.value, stale)
  }

  /** From the unprotected header on. */
  function DeserializeRest(d: Bytes, at: nat, nonce: U32, stale: Tag): (r: Result<Extracted>)
    requires ReadHead(d, at).Some?
  {
    var second := ReadHead(d, at).value;
    if second.major != MAP then Err(InputDataInvalid)
    else
      var behind := SkipContent(d, second, MAX_RECURSIONS);
      if behind.None? || ReadHead(d, behind.value).None? then Err(InputDataInvalid)
      else DeserializePayloadAndTag(d, behind.value, nonce, stale)
  }

  function DeserializePayloadAndTag(d: Bytes, at: nat, nonce: U32, stale: Tag): (r: Result<Extracted>)
    requires ReadHead(d, at).Some?
  {
    var p := ReadHead(d, at).value;
    if p.major != BSTR then Err(InputDataInvalid)
    else if p.arg > |d| - p.next then Err(CborParser)
    else
      var last := ReadHead(d, p.next + p.arg);
      if last.None? then Err(CborParser)
      else if p.arg >= 0xFF then Err(InputDataInvalid)
      else
        var t := last.value;
        if t.major != BSTR || t.arg == 0 then Err(InputDataInvalid)
        else if t.arg > |d| - t.next || t.arg > 8 then Err(CborParser)
        else
          Ok(Extracted(nonce, at, if p.arg < 24 then at + 1 else at + 2, p.arg,
                       FilledTag(d[t.next..t.next + t.arg], stale)))
  }

  /** A short tag is followed by a zero byte and whatever the field held before. */
  function FilledTag(read: Bytes, stale: Tag): (r: Tag)
    requires 0 < |read| <= 8
  {
    if |read| == 8 then read else read + [0] + stale[|read| + 1..]
  }

  datatype Verified = Verified(nonce: U32, payloadAt: nat, payloadLen: nat)

  lemma PayloadInBounds(d: Bytes, stale: Tag)
    ensures var r := Deserialize(d, stale);
      r.Ok? ==> r.value.payloadAt + r.value.payloadLen <= |d| && r.value.payloadLen < 0xFF
  {
  }

  /** nexus_cose_mac0_verify_message() */
  function VerifyOf(mac: Mac, key: Key, method_: U8, uri: Bytes, d: Bytes, stale: Tag): (r: Result<Verified>)
    requires |uri| <= 0xFF
  {
    var e := Deserialize(d, stale);
    if e.Err? then Err(e.error)
    else PayloadInBounds(d, stale); CheckTag(mac, key, method_, uri, d, e.value)
  }

  function CheckTag(mac: Mac, key: Key, method_: U8, uri: Bytes, d: Bytes, v: Extracted): (r: Result<Verified>)
    requires |uri| <= 0xFF && v.payloadAt + v.payloadLen <= |d| && v.payloadLen < 0xFF
  {
    var s := MacStructureOf(Params(key, v.nonce, method_, uri, d[v.payloadAt..v.payloadAt + v.payloadLen]));
    if s.Err? then Err(s.error)
    else if mac(key, s.value) != v.tag then Err(MacTagInvalid)
    else Ok(Verified(v.nonce, v.payloadAt, v.payloadLen))
  }

  /** The MAC is computed exactly for a URI of at most 11 bytes and a structure of at most 123. */
  lemma MacStructureOfMeaning(p: Params)
    requires Fits(p)
    ensures MacStructureOf(p).Ok? <==> |p.uri| <= 11 && |MacStructure(p)| <= 123
    ensures MacStructureOf(p).Ok? ==> MacStructureOf(p).value == MacStructure(p)
    ensures MacStructureOf(p) == Err(InputDataInvalid) <==> |p.uri| > 11
    ensures MacStructureOf(p) == Err(CborEncoder) <==> |p.uri| <= 11 && |MacStructure(p)| > 123
  {
    hide MacStructure;
  }

  /** A map of at least one pair, but not too many for the parser, whose first label is an integer. */
  predicate StartsWithLabel(h: Bytes) {
    var root := ReadHead(h, 0);
    && root.Some? && root.value.major == MAP && 1 <= root.value.arg <= UINT32_MAX / 2
    && ReadHead(h, root.value.next).Some? && ReadHead(h, root.value.next).value.major <= 1
  }

  /** The head of the value behind that label. */
  function FirstValue(h: Bytes): (v: Option<Head>)
    requires StartsWithLabel(h)
  {
    ReadHead(h, ReadHead(h, ReadHead(h, 0).value.next).value.next)
  }

  /**
   * A protected header is accepted exactly when it is a map of one pair from an integer to an unsigned number of 32 bits,
   * which is the nonce. An assertion fails exactly when the number is negative, or is such a nonce and another pair follows.
   */
  lemma ParseHeaderMeaning(h: Bytes, nonce: U32)
    ensures ParseHeader(h) == Ok(nonce) <==>
      && StartsWithLabel(h) && ReadHead(h, 0).value.arg == 1
      && FirstValue(h).Some? && FirstValue(h).value.major == UINT && FirstValue(h).value.arg == nonce
    ensures ParseHeader(h) == Err(Aborted) <==>
      && StartsWithLabel(h) && FirstValue(h).Some?
      && (FirstValue(h).value.major == 1
          || (FirstValue(h).value.major == UINT && FirstValue(h).value.arg <= UINT32_MAX && ReadHead(h, 0).value.arg > 1
              && ReadHead(h, FirstValue(h).value.next).Some?))
  {
    hide ReadHead;
  }

  // ---------------------------------------------------------------- signing and verifying agree

  lemma ParseHeaderOfHeader(n: U32)
    ensures ParseHeader(Header(n)) == Ok(n)
  {
    var h := Header(n);
    var m, l := EncodeHead(MAP, 1), EncodeHead(UINT, 5);
    ReadEncodedHead([], MAP, 1, l + EncodeHead(UINT, n));
    assert h == [] + m + (l + EncodeHead(UINT, n));
    ReadEncodedHead(m, UINT, 5, EncodeHead(UINT, n));
    ReadEncodedHead(m + l, UINT, n, []);
    assert h == m + l + EncodeHead(UINT, n) + [];
  }

  lemma HeadAt(d: Bytes, pre: Bytes, major: Major, n: U64, post: Bytes)
    requires major != SIMPLE && d == pre + EncodeHead(major, n) + post
    ensures ReadHead(d, |pre|) == Some(Head(major, n, |pre| + |EncodeHead(major, n)|))
    ensures post == d[|pre| + |EncodeHead(major, n)|..]
  {
    ReadEncodedHead(pre, major, n, post);
  }

  lemma TagReads(d: Bytes, pre: Bytes, tag: Tag)
    requires d == pre + EncodeBytes(tag)
    ensures ReadHead(d, |pre|) == Some(Head(BSTR, 8, |pre| + 1)) && |d| == |pre| + 9 && d[|pre| + 1..|pre| + 9] == tag
  {
    hide ReadHead, EncodeHead;
    assert d == pre + EncodeHead(BSTR, 8) + tag;
    HeadAt(d, pre, BSTR, 8, tag);
  }

  lemma PayloadReads(d: Bytes, pre: Bytes, payload: Bytes, post: Bytes)
    requires SizeT(payload) && d == pre + EncodeBytes(payload) + post
    ensures var next := |pre| + |EncodeHead(BSTR, |payload|)|;
      ReadHead(d, |pre|) == Some(Head(BSTR, |payload|, next)) && next + |payload| <= |d| && d[next..next + |payload|] == payload
  {
    hide ReadHead, EncodeHead;
    assert d == pre + EncodeHead(BSTR, |payload|) + (payload + post);
    HeadAt(d, pre, BSTR, |payload|, payload + post);
  }

  lemma PayloadAndTagRead(d: Bytes, pre: Bytes, nonce: U32, payload: Bytes, tag: Tag, stale: Tag)
    requires |payload| < 0xFF && d == pre + EncodeBytes(payload) + EncodeBytes(tag)
    ensures ReadHead(d, |pre|).Some?
    ensures DeserializePayloadAndTag(d, |pre|, nonce, stale)
      == Ok(Extracted(nonce, |pre|, |pre| + |EncodeHead(BSTR, |payload|)|, |payload|, tag))
  {
    hide ReadHead, EncodeHead;
    PayloadReads(d, pre, payload, EncodeBytes(tag));
    TagReads(d, pre + EncodeBytes(payload), tag);
  }

  lemma UnprotectedReads(d: Bytes, pre: Bytes, nonce: U32, payload: Bytes, tag: Tag, stale: Tag)
    requires |payload| < 0xFF && d == pre + EncodeHead(MAP, 0) + EncodeBytes(payload) + EncodeBytes(tag)
    ensures ReadHead(d, |pre|).Some?
    ensures DeserializeRest(d, |pre|, nonce, stale)
      == Ok(Extracted(nonce, |pre| + 1, |pre| + 1 + |EncodeHead(BSTR, |payload|)|, |payload|, tag))
  {
    hide ReadHead, EncodeHead, DeserializePayloadAndTag;
    assert d == pre + EncodeHead(MAP, 0) + (EncodeBytes(payload) + EncodeBytes(tag));
    HeadAt(d, pre, MAP, 0, EncodeBytes(payload) + EncodeBytes(tag));
    PayloadAndTagRead(d, pre + EncodeHead(MAP, 0), nonce, payload, tag, stale);
    assert SkipItems(d, |pre| + 1, 0, MAX_RECURSIONS - 1) == Some(|pre| + 1);
  }

  lemma DeserializeGiven(d: Bytes, stale: Tag, h: nat, nonce: U32)
    requires 0 < h <= MAX_HEADER && 2 + h <= |d| && ParseHeader(d[2..2 + h]) == Ok(nonce)
    requires ReadHead(d, 0) == Some(Head(ARRAY, 4, 1)) && ReadHead(d, 1) == Some(Head(BSTR, h, 2)) && ReadHead(d, 2 + h).Some?
    ensures Deserialize(d, stale) == DeserializeRest(d, 2 + h, nonce, stale)
  {
    hide ReadHead, ParseHeader, DeserializeRest;
  }

  lemma MessagePrefix(d: Bytes, nonce: U32, post: Bytes)
    requires d == EncodeHead(ARRAY, 4) + EncodeBytes(Header(nonce)) + post
    ensures var h := Header(nonce);
      && ReadHead(d, 0) == Some(Head(ARRAY, 4, 1)) && ReadHead(d, 1) == Some(Head(BSTR, |h|, 2))
      && |d| == 2 + |h| + |post| && d[2..2 + |h|] == h
  {
    hide ReadHead, EncodeHead, Header;
    assert d == [] + EncodeHead(ARRAY, 4) + (EncodeBytes(Header(nonce)) + post);
    HeadAt(d, [], ARRAY, 4, EncodeBytes(Header(nonce)) + post);
    PayloadReads(d, EncodeHead(ARRAY, 4), Header(nonce), post);
  }

  /** Reading a written message gives back its parts. */
  lemma DeserializeMessage(nonce: U32, payload: Bytes, tag: Tag, stale: Tag)
    requires |payload| < 0xFF
    ensures var at := 3 + |Header(nonce)|;
      Deserialize(Message(nonce, payload, tag), stale)
        == Ok(Extracted(nonce, at, at + |EncodeHead(BSTR, |payload|)|, |payload|, tag))
  {
    hide ReadHead, EncodeHead, DeserializeRest, ParseHeader, Header, Deserialize;
    var d, h := Message(nonce, payload, tag), Header(nonce);
    var post := EncodeHead(MAP, 0) + EncodeBytes(payload) + EncodeBytes(tag);
    var pre := EncodeHead(ARRAY, 4) + EncodeBytes(h);
    assert d == pre + post;
    MessagePrefix(d, nonce, post);
    ParseHeaderOfHeader(nonce);
    assert d == pre + EncodeHead(MAP, 0) + EncodeBytes(payload) + EncodeBytes(tag);
    UnprotectedReads(d, pre, nonce, payload, tag, stale);
    DeserializeGiven(d, stale, |h|, nonce);
  }

  lemma MessagePayload(nonce: U32, payload: Bytes, tag: Tag)
    requires |payload| < 0xFF
    ensures var d, at := Message(nonce, payload, tag), 3 + |Header(nonce)| + |EncodeHead(BSTR, |payload|)|;
      at + |payload| <= |d| && d[at..at + |payload|] == payload
  {
    hide ReadHead, EncodeHead, Header;
    var pre := EncodeHead(ARRAY, 4) + EncodeBytes(Header(nonce)) + EncodeHead(MAP, 0);
    PayloadReads(Message(nonce, payload, tag), pre, payload, EncodeBytes(tag));
  }

  /** Verifying a signed message with the same context gives the nonce and exactly the payload. */
  lemma SignThenVerify(mac: Mac, p: Params, outputSize: nat, stale: Tag)
    requires Fits(p) && SignOf(mac, p, outputSize).Ok?
    ensures var d := SignOf(mac, p, outputSize).value;
      var r := VerifyOf(mac, p.key, p.method_, p.uri, d, stale);
      && |d| <= MAX_MESSAGE
      && r.Ok? && r.value.nonce == p.nonce && r.value.payloadLen == |p.payload|
      && r.value.payloadAt + r.value.payloadLen <= |d|
      && d[r.value.payloadAt..r.value.payloadAt + r.value.payloadLen] == p.payload
  {
    hide Deserialize, ReadHead, EncodeHead, MacStructure, Message, Header;
    var d, tag := Signed(mac, p), mac(p.key, MacStructure(p));
    var at := 3 + |Header(p.nonce)| + |EncodeHead(BSTR, |p.payload|)|;
    SignedSize(mac, p);
    DeserializeMessage(p.nonce, p.payload, tag, stale);
    MessagePayload(p.nonce, p.payload, tag);
    assert Params(p.key, p.nonce, p.method_, p.uri, d[at..at + |p.payload|]) == p;
  }

  /** What a successful verification vouches for. */
  function Vouched(mac: Mac, key: Key, method_: U8, uri: Bytes, d: Bytes, stale: Tag): (q: Params)
    requires |uri| <= 0xFF && VerifyOf(mac, key, method_, uri, d, stale).Ok?
    ensures Fits(q)
  {
    PayloadInBounds(d, stale);
    var v := VerifyOf(mac, key, method_, uri, d, stale).value;
    Params(key, v.nonce, method_, uri, d[v.payloadAt..v.payloadAt + v.payloadLen])
  }

  /**
   * What verification accepts carries the MAC of exactly the nonce and payload it returns. So a message
   * with the tag of signed parameters is accepted only with their nonce, method, URI and payload,
   * unless the MAC collides on the two structures.
   */
  lemma AcceptedIsSigned(mac: Mac, key: Key, method_: U8, uri: Bytes, d: Bytes, stale: Tag, p: Params)
    requires |uri| <= 0xFF && Fits(p) && p.key == key
    requires VerifyOf(mac, key, method_, uri, d, stale).Ok?
    ensures var q := Vouched(mac, key, method_, uri, d, stale);
      && Deserialize(d, stale).value.tag == mac(key, MacStructure(q))
      && (Deserialize(d, stale).value.tag == mac(key, MacStructure(p)) ==>
            q == p || (MacStructure(q) != MacStructure(p) && mac(key, MacStructure(q)) == mac(key, MacStructure(p))))
  {
    hide Deserialize, MacStructure, ReadHead;
    PayloadInBounds(d, stale);
    var q := Vouched(mac, key, method_, uri, d, stale);
    if MacStructure(q) == MacStructure(p) {
      MacStructureInjective(q, p);
    }
  }
}
