/** Reading secured messages with a cursor that moves from item to item. */
module CoseVerify {
  import opened Prelude
  import opened Cbor
  import opened Links
  import opened CoseMac0
  import CoseSign

  /** cbor_value_advance() over the items of a container. */
  method AdvanceItems(d: Bytes, at: nat, count: nat, depth: nat) returns (behind: Option<nat>)
    requires at <= |d|
    ensures behind == SkipItems(d, at, count, depth)
    decreases |d| - at, 0
  {
    var pos, left := at, count;
    while left > 0
      invariant at <= pos <= |d| && SkipItems(d, at, count, depth) == SkipItems(d, pos, left, depth)
      decreases |d| - pos
    {
      var h := ReadHead(d, pos);
      if h.None? {
        return None;
      }
      if h.value.major == TAG {
        pos := h.value.next;
      } else {
        var next := AdvanceContent(d, h.value, depth);
        if next.None? {
          return None;
        }
        pos, left := next.value, left - 1;
      }
    }
    behind := Some(pos);
  }

  /** advance_recursive() behind a head that was already read. */
  method AdvanceContent(d: Bytes, h: Head, depth: nat) returns (behind: Option<nat>)
    requires h.next <= |d|
    ensures behind == SkipContent(d, h, depth)
    decreases |d| - h.next, 1
  {
    if h.major == BSTR || h.major == TSTR {
      return if h.arg <= |d| - h.next then Some(h.next + h.arg) else None;
    }
    if h.major != ARRAY && h.major != MAP {
      return Some(h.next);
    }
    if depth == 0 || (if h.major == ARRAY then h.arg >= UINT32_MAX else h.arg > UINT32_MAX / 2) {
      return None;
    }
    behind := AdvanceItems(d, h.next, if h.major == MAP then 2 * h.arg else h.arg, depth - 1);
  }

  /** _nexus_cose_mac0_verify_deserialize_protected_header() */
  method DeserializeProtectedHeader(h: Bytes) returns (r: Result<U32>)
    ensures r == ParseHeader(h)
  {
    hide ReadHead;
    var root := ReadHead(h, 0);
    if root.None? {
      return Err(CborParser);
    }
    if root.value.major != MAP || root.value.arg == 0 {
      return Err(InputDataInvalid);
    }
    if root.value.arg > UINT32_MAX / 2 {
      return Err(CborParser);
    }
    var remaining := 2 * root.value.arg;
    var item := ReadHead(h, root.value.next);
    if item.None? {
      return Err(CborParser);
    }
    if item.value.major > 1 {
      return Err(InputDataInvalid);
    }
    item := ReadHead(h, item.value.next);
    remaining := remaining - 1;
    if item.None? || item.value.major > 1 {
      return Err(InputDataInvalid);
    }
    if item.value.major != UINT {
      return Err(Aborted);
    }
    var nonce := item.value.arg;
    if nonce > UINT32_MAX {
      return Err(InputDataInvalid);
    }
    remaining := remaining - 1;
    if remaining > 0 {
      item := ReadHead(h, item.value.next);
      return if item.None? then Err(CborParser) else Err(Aborted);
    }
    r := Ok(nonce);
  }

  /** nexus_cose_mac0_verify_deserialize_protected_message() */
  method DeserializeProtectedMessage(d: Bytes, stale: Tag) returns (r: Result<Extracted>)
    ensures r == Deserialize(d, stale)
  {
    hide ReadHead, ParseHeader, DeserializeRest;
    var root := ReadHead(d, 0);
    if root.None? || root.value.major != ARRAY {
      return Err(CborParser);
    }
    if root.value.arg != 4 {
      return Err(InputDataInvalid);
    }
    var first := ReadHead(d, root.value.next);
    if first.None? {
      return Err(CborParser);
    }
    var h := first.value;
    if h.major != BSTR || h.arg == 0 {
      return Err(InputDataInvalid);
    }
    if h.arg > |d| - h.next || ReadHead(d, h.next + h.arg).None? || h.arg > MAX_HEADER {
      return Err(InputDataInvalid);
    }
    var nonce := DeserializeProtectedHeader(d[h.next..h.next + h.arg]);
    if nonce.Err? {
      return Err(nonce.error);
    }
    r := DeserializeUnprotected(d, h.next + h.arg, nonce.value, stale);
  }

  method DeserializeUnprotected(d: Bytes, at: nat, nonce: U32, stale: Tag) returns (r: Result<Extracted>)
    requires ReadHead(d, at).Some?
    ensures r == DeserializeRest(d, at, nonce, stale)
  {
    hide ReadHead, SkipContent, DeserializePayloadAndTag;
    var second := ReadHead(d, at).value;
    if second.major != MAP {
      return Err(InputDataInvalid);
    }
    var behind := AdvanceContent(d, second, MAX_RECURSIONS);
    if behind.None? || ReadHead(d, behind.value).None? {
      return Err(InputDataInvalid);
    }
    r := DeserializePayload(d, behind.value, nonce, stale);
  }

  method DeserializePayload(d: Bytes, at: nat, nonce: U32, stale: Tag) returns (r: Result<Extracted>)
    requires ReadHead(d, at).Some?
    ensures r == DeserializePayloadAndTag(d, at, nonce, stale)
  {
    hide ReadHead, FilledTag;
    var item := ReadHead(d, at).value;
    if item.major != BSTR {
      return Err(InputDataInvalid);
    }
    var payloadLen := item.arg;
    if payloadLen > |d| - item.next {
      return Err(CborParser);
    }
    var last := ReadHead(d, item.next + payloadLen);
    if last.None? {
      return Err(CborParser);
    }
    var payload := at;
    if payloadLen < 24 {
      payload := at + 1;
    } else if payloadLen < 0xFF {
      payload := at + 2;
    } else {
      return Err(InputDataInvalid);
    }
    item := last.value;
    if item.major != BSTR || item.arg == 0 {
      return Err(InputDataInvalid);
    }
    if item.arg > |d| - item.next || item.arg > 8 {
      return Err(CborParser);
    }
    var tag := FilledTag(d[item.next..item.next + item.arg], stale);
    r := Ok(Extracted(nonce, at, payload, payloadLen, tag));
  }

  /** nexus_cose_mac0_verify_message() */
  method VerifyMessage(mac: Mac, key: Key, method_: U8, uri: Bytes, d: Bytes, stale: Tag) returns (r: Result<Verified>)
    requires |uri| <= 0xFF
    ensures r == VerifyOf(mac, key, method_, uri, d, stale)
  {
    hide Deserialize, ReadHead, MacStructure;
    var extracted := DeserializeProtectedMessage(d, stale);
    if extracted.Err? {
      return Err(extracted.error);
    }
    var e := extracted.value;
    PayloadInBounds(d, stale);
    var repacked := Params(key, e.nonce, method_, uri, d[e.payloadAt..e.payloadAt + e.payloadLen]);
    var macStruct := new U8[MAC_STRUCTURE_BUFFER];
    var built := CoseSign.MacParamsToMacStructure(repacked, macStruct);
    if built.Err? {
      return Err(built.error);
    }
    if mac(key, macStruct[..built.value]) != e.tag {
      return Err(MacTagInvalid);
    }
    r := Ok(Verified(e.nonce, e.payloadAt, e.payloadLen));
  }
}
