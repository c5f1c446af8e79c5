/** Writing secured messages into fixed buffers, item by item. */
module CoseSign {
  import opened Prelude
  import opened Cbor
  import opened Links
  import opened CoseMac0

  /** An output buffer and how much of it is filled. */
  class CborEncoder {
    const buf: array<U8>
    var used: nat

    ghost predicate Holds(written: Bytes)
      reads this, buf
    {
      used == |written| <= buf.Length && buf[..used] == written
    }

    constructor (buf: array<U8>)
      ensures this.buf == buf && Holds([])
    {
      this.buf, used := buf, 0;
    }

    /** append_to_buffer(); nothing is written when the bytes do not fit. */
    method Append(s: Bytes, ghost before: Bytes) returns (ok: bool)
      requires Holds(before)
      modifies this, buf
      ensures ok == (|before| + |s| <= buf.Length)
      ensures Holds(if ok then before + s else before)
    {
      ok := used + |s| <= buf.Length;
      if ok {
        for i := 0 to |s|
          invariant used == |before| && used + |s| <= buf.Length
          invariant buf[..used + i] == before + s[..i]
        {
          buf[used + i] := s[i];
          assert s[..i + 1] == s[..i] + [s[i]];
        }
        assert s[..|s|] == s;
        used := used + |s|;
      }
    }

    method EncodeNumber(major: Major, n: U64, ghost before: Bytes) returns (ok: bool)
      requires Holds(before)
      modifies this, buf
      ensures ok == (|before| + |EncodeHead(major, n)| <= buf.Length)
      ensures Holds(if ok then before + EncodeHead(major, n) else before)
    {
      ok := Append(EncodeHead(major, n), before);
    }

    /** cbor_encode_byte_string() and cbor_encode_text_string() */
    method EncodeString(major: Major, s: Bytes, ghost before: Bytes) returns (ok: bool)
      requires Holds(before) && SizeT(s)
      modifies this, buf
      ensures ok == (|before| + |EncodeHead(major, |s|)| + |s| <= buf.Length)
      ensures ok ==> Holds(before + (EncodeHead(major, |s|) + s))
    {
      hide EncodeHead;
      ghost var head := EncodeHead(major, |s|);
      assert before + head + s == before + (head + s);
      ok := EncodeNumber(major, |s|, before);
      if ok {
        ok := Append(s, before + head);
      }
    }
  }

  lemma HeaderParts(nonce: U32)
    ensures [] + EncodeHead(MAP, 1) + EncodeHead(UINT, 5) + EncodeHead(UINT, nonce) == Header(nonce)
    ensures |EncodeHead(MAP, 1)| == |EncodeHead(UINT, 5)| == 1 && |EncodeHead(UINT, nonce)| <= 5
  {
  }

  /** nexus_cose_mac0_encode_protected_header_map(); a buffer that might be too small is left alone. */
  method EncodeProtectedHeaderMap(nonce: U32, out: array<U8>, size: U8) returns (len: nat)
    requires size <= out.Length
    modifies out
    ensures if size < MAX_HEADER then len == 0 && out[..] == old(out[..])
            else len == |Header(nonce)| && out[..len] == Header(nonce)
  {
    if size < MAX_HEADER {
      return 0;
    }
    HeaderParts(nonce);
    hide Header, EncodeHead;
    var hdrBuf := new U8[MAX_HEADER];
    var enc := new CborEncoder(hdrBuf);
    var ok := enc.EncodeNumber(MAP, 1, []);
    ok := enc.EncodeNumber(UINT, 5, [] + EncodeHead(MAP, 1));
    ok := enc.EncodeNumber(UINT, nonce, [] + EncodeHead(MAP, 1) + EncodeHead(UINT, 5));
    len := enc.used;
    CopyBytes(hdrBuf, len, out);
  }

  method CopyBytes(src: array<U8>, len: nat, dst: array<U8>)
    requires len <= src.Length && len <= dst.Length && src != dst
    modifies dst
    ensures dst[..len] == src[..len]
  {
    for i := 0 to len
      invariant dst[..i] == src[..i]
    {
      dst[i] := src[i];
    }
  }

  /** The CoAP method byte, then the URI. */
  method FillAad(method_: U8, uri: Bytes, tmpBuf: array<U8>)
    requires 1 + |uri| <= tmpBuf.Length
    modifies tmpBuf
    ensures tmpBuf[..1 + |uri|] == [method_] + uri
  {
    tmpBuf[0] := method_;
    for i := 0 to |uri|
      invariant tmpBuf[0] == method_ && tmpBuf[1..1 + i] == uri[..i]
    {
      tmpBuf[1 + i] := uri[i];
    }
  }

  /** What the MAC structure holds when the URI is added. */
  function StructurePrefix(nonce: U32): (r: Bytes) {
    [] + EncodeHead(ARRAY, 4) + (EncodeHead(TSTR, 4) + CONTEXT) + EncodeBytes(Header(nonce))
  }

  lemma StructureParts(p: Params)
    requires Fits(p)
    ensures StructurePrefix(p.nonce) + EncodeBytes([p.method_] + p.uri) + EncodeBytes(p.payload) == MacStructure(p)
  {
    hide EncodeHead, Header;
  }

  method EncodeStructurePrefix(nonce: U32, enc: CborEncoder, tmpBuf: array<U8>)
    requires enc.Holds([]) && enc.buf.Length == MAC_STRUCTURE_BUFFER && tmpBuf.Length == 26 && tmpBuf != enc.buf
    modifies enc, enc.buf, tmpBuf
    ensures enc.Holds(StructurePrefix(nonce))
  {
    hide EncodeHead, Header;
    var headerLen := EncodeProtectedHeaderMap(nonce, tmpBuf, 26);
    ghost var w := [] + EncodeHead(ARRAY, 4);
    var ok := enc.EncodeNumber(ARRAY, 4, []);
    ok := enc.EncodeString(TSTR, CONTEXT, w);
    w := w + (EncodeHead(TSTR, 4) + CONTEXT);
    ok := enc.EncodeString(BSTR, tmpBuf[..headerLen], w);
  }

  /** nexus_cose_mac0_common_mac_params_to_mac_structure(), with one scratch buffer used twice. */
  method MacParamsToMacStructure(p: Params, buf: array<U8>) returns (r: Result<nat>)
    requires Fits(p) && buf.Length == MAC_STRUCTURE_BUFFER
    modifies buf
    ensures match MacStructureOf(p)
      case Err(e) => r == Err(e)
      case Ok(s) => r == Ok(|s|) && |s| <= buf.Length && buf[..|s|] == s
  {
    StructureParts(p);
    var tmpBuf := new U8[26];
    var enc := new CborEncoder(buf);
    EncodeStructurePrefix(p.nonce, enc, tmpBuf);
    if |p.uri| > MAX_URI {
      return Err(InputDataInvalid);
    }
    hide EncodeHead, Header, MacStructure, StructurePrefix;
    FillAad(p.method_, p.uri, tmpBuf);
    ghost var w := StructurePrefix(p.nonce);
    var ok := enc.EncodeString(BSTR, tmpBuf[..1 + |p.uri|], w);
    ok := enc.EncodeString(BSTR, p.payload, w + EncodeBytes([p.method_] + p.uri));
    if !ok {
      return Err(CborEncoder);
    }
    r := Ok(enc.used);
  }

  function MessagePrefix(nonce: U32): (b: Bytes)
    ensures |b| <= 10
  {
    [] + EncodeHead(ARRAY, 4) + EncodeBytes(Header(nonce)) + EncodeHead(MAP, 0)
  }

  /** Everything before the payload. */
  method EncodeMessagePrefix(nonce: U32, enc: CborEncoder) returns (ok: bool)
    requires enc.Holds([])
    modifies enc, enc.buf
    ensures ok == (|MessagePrefix(nonce)| <= enc.buf.Length)
    ensures ok ==> enc.Holds(MessagePrefix(nonce))
  {
    hide EncodeHead, Header;
    var tmpBuf := new U8[MAX_HEADER];
    ghost var w := [] + EncodeHead(ARRAY, 4);
    ok := enc.EncodeNumber(ARRAY, 4, []);
    if !ok {
      return;
    }
    var headerLen := EncodeProtectedHeaderMap(nonce, tmpBuf, MAX_HEADER);
    ok := enc.EncodeString(BSTR, tmpBuf[..headerLen], w);
    if !ok {
      return;
    }
    ok := enc.EncodeNumber(MAP, 0, w + EncodeBytes(Header(nonce)));
  }

  /** The message builder of nexus_cose_mac0_sign.c. */
  method InputAndTagToMessage(nonce: U32, payload: Bytes, tag: Tag, output: array<U8>) returns (r: Result<nat>)
    requires SizeT(payload)
    modifies output
    ensures var m := Message(nonce, payload, tag);
      r == (if |m| > output.Length then Err(CborEncoder) else if |m| > MAX_MESSAGE then Err(InputDataInvalid) else Ok(|m|))
      && (r.Ok? ==> output[..|m|] == m)
  {
    var enc := new CborEncoder(output);
    ghost var w := MessagePrefix(nonce);
    assert w + EncodeBytes(payload) + EncodeBytes(tag) == Message(nonce, payload, tag);
    hide EncodeHead, Header, Message, MessagePrefix;
    var ok := EncodeMessagePrefix(nonce, enc);
    if !ok {
      return Err(CborEncoder);
    }
    ok := enc.EncodeString(BSTR, payload, w);
    if !ok {
      return Err(CborEncoder);
    }
    ok := enc.EncodeString(BSTR, tag, w + EncodeBytes(payload));
    if !ok {
      return Err(CborEncoder);
    }
    if enc.used > MAX_MESSAGE {
      return Err(InputDataInvalid);
    }
    r := Ok(enc.used);
  }

  /** nexus_cose_mac0_sign_encode_message(); the result is the number of bytes written. */
  method SignEncodeMessage(mac: Mac, p: Params, output: array<U8>) returns (r: Result<nat>)
    requires Fits(p)
    modifies output
    ensures match SignOf(mac, p, output.Length)
      case Err(e) => r == Err(e)
      case Ok(m) => r == Ok(|m|) && |m| <= output.Length && output[..|m|] == m
  {
    if output.Length < MAX_MESSAGE {
      return Err(BufferTooSmall);
    }
    var macStruct := new U8[MAC_STRUCTURE_BUFFER];
    var built := MacParamsToMacStructure(p, macStruct);
    if built.Err? {
      return Err(built.error);
    }
    var tag := mac(p.key, macStruct[..built.value]);
    r := InputAndTagToMessage(p.nonce, p.payload, tag, output);
  }
}
