/** Authentication of received messages against the link table. */
module SecurityManager {
  import opened Prelude
  import opened Cbor
  import opened Links
  import LM = LinkManager
  import opened CoseMac0
  import CoseVerify
  import opened LinkLaws

  const CREATED_2_01: U8 := 65
  const NOT_ACCEPTABLE_4_06: U8 := 134
  const RESET_NONCE_SIGNAL: U32 := UINT32_MAX

  /** cose: the content format says the payload is a COSE_Mac0 message. */
  datatype Packet = Packet(code: U8, cose: bool, uri: Bytes, payload: Bytes)

  datatype AuthResult =
    | NoError | MacInvalid | Unparseable | PayloadSizeInvalid | NotLinked | RequiresSecuredRequest
    | InvalidNonce | ValidNonceSync | ForcedReset | AssertionFailed

  /** What authentication leaves: the table, the verdict, and the payload the packet is left with. */
  datatype Auth = Auth(table: Table, result: AuthResult, payload: Bytes)

  predicate IsRequest(code: U8) {
    code < CREATED_2_01
  }

  /** The verdict on a message whose MAC is right; the comparison with nonce + 1 is in 32 bits. */
  function NonceVerdict(code: U8, current: U32, received: U32): (r: AuthResult) {
    if IsRequest(code) then
      if received < Add32(current, 1) then InvalidNonce
      else if received > UINT32_MAX - NONCE_INTERVAL then ForcedReset
      else NoError
    else
      if received < current then InvalidNonce
      else if code == NOT_ACCEPTABLE_4_06 then ValidNonceSync
      else NoError
  }

  /** The nonce the link has after that verdict. */
  function NonceAfter(verdict: AuthResult, received: U32): (r: U32) {
    if verdict == ForcedReset || (verdict == ValidNonceSync && received == RESET_NONCE_SIGNAL) then 0 else received
  }

  function Used(t: Table, id: NxId, nonce: U32): (r: Table)
    requires Sized(t)
  {
    ResetSecsSinceActive(SetNonce(t, id, nonce).0, id)
  }

  function UriInAad(uri: Bytes): (r: Bytes) {
    uri[..|uri| % 0x100]
  }

  /** What the COSE layer makes of a packet under a key. */
  function Checked(mac: Mac, key: Key, pkt: Packet, stale: Tag): (r: Result<Verified>) {
    VerifyOf(mac, key, pkt.code, UriInAad(pkt.uri), pkt.payload, stale)
  }

  function VerifiedPayload(pkt: Packet, v: Verified): (r: Bytes) {
    if v.payloadAt + v.payloadLen <= |pkt.payload| then pkt.payload[v.payloadAt..v.payloadAt + v.payloadLen] else []
  }

  /** nexus_channel_authenticate_message(); secured tells whether the requested method is. */
  function Authenticate(mac: Mac, t: Table, from: NxId, pkt: Packet, secured: bool, stale: Tag): (r: Auth)
    requires Sized(t)
  {
    if !pkt.cose then Auth(t, if secured then RequiresSecuredRequest else NoError, pkt.payload)
    else if |pkt.payload| > MAX_MESSAGE || pkt.payload == [] then Auth(t, PayloadSizeInvalid, pkt.payload)
    else
      var at := Find(t, from);
      if at.None? then Auth(t, NotLinked, pkt.payload)
      else AuthenticateLinked(mac, t, from, t.links[at.value], pkt, stale)
  }

  function AuthenticateLinked(mac: Mac, t: Table, from: NxId, link: Link, pkt: Packet, stale: Tag): (r: Auth)
    requires Sized(t)
  {
    var checked := Checked(mac, link.key, pkt, stale);
    match checked
    case Err(MacTagInvalid) => Auth(t, MacInvalid, [])
    case Err(Aborted) => Auth(t, AssertionFailed, [])
    case Err(_) => Auth(t, Unparseable, [])
    case Ok(v) =>
      var verdict := NonceVerdict(pkt.code, link.nonce, v.nonce);
      Auth(if verdict == InvalidNonce then t else Used(t, from, NonceAfter(verdict, v.nonce)),
           verdict, VerifiedPayload(pkt, v))
  }

  /** The same as a method on the live link table. */
  method AuthenticateMessage(mac: Mac, lm: LM.LinkManager, from: NxId, pkt: Packet, secured: bool, stale: Tag)
      returns (result: AuthResult, payload: Bytes)
    requires lm.Allocated()
    modifies lm.links, lm.linkIdxShouldPersistNonce
    ensures Auth(lm.State(), result, payload) == Authenticate(mac, old(lm.State()), from, pkt, secured, stale)
  {
    hide VerifyOf, SetNonce, ResetSecsSinceActive, FindFrom;
    payload := pkt.payload;
    if !pkt.cose {
      result := if secured then RequiresSecuredRequest else NoError;
      return;
    }
    if |pkt.payload| > MAX_MESSAGE || |pkt.payload| == 0 {
      result := PayloadSizeInvalid;
      return;
    }
    var at := lm.LinkIndexFromNxid(from);
    if at.None? {
      result := NotLinked;
      return;
    }
    var security := lm.links[at.value];
    var verified := CoseVerify.VerifyMessage(mac, security.key, pkt.code, UriInAad(pkt.uri), pkt.payload, stale);
    if verified.Err? {
      payload := [];
      result := match verified.error case MacTagInvalid => MacInvalid case Aborted => AssertionFailed case _ => Unparseable;
      return;
    }
    payload := VerifiedPayload(pkt, verified.value);
    var receivedNonce := verified.value.nonce;
    var newNonce := receivedNonce;
    result := NoError;
    if pkt.code < CREATED_2_01 {
      if receivedNonce < Add32(security.nonce, 1) {
        result := InvalidNonce;
        return;
      } else if receivedNonce > UINT32_MAX - NONCE_INTERVAL {
        newNonce := 0;
        result := ForcedReset;
      }
    } else if receivedNonce < security.nonce {
      result := InvalidNonce;
      return;
    } else if pkt.code == NOT_ACCEPTABLE_4_06 {
      result := ValidNonceSync;
      newNonce := if receivedNonce == RESET_NONCE_SIGNAL then 0 else receivedNonce;
    }
    var _ := lm.SetSecurityDataAuthNonce(from, newNonce);
    lm.ResetLinkSecsSinceActive(from);
  }

  // ---------------------------------------------------------------- one message

  lemma AuthenticateInv(mac: Mac, t: Table, from: NxId, pkt: Packet, secured: bool, stale: Tag)
    requires Inv(t)
    ensures Inv(Authenticate(mac, t, from, pkt, secured, stale).table)
  {
    var at := Find(t, from);
    if at.Some? && Checked(mac, t.links[at.value].key, pkt, stale).Ok? {
      hide Checked, Inv, Used, Find;
      var v := Checked(mac, t.links[at.value].key, pkt, stale).value;
      UsedInv(t, from, NonceAfter(NonceVerdict(pkt.code, t.links[at.value].nonce, v.nonce), v.nonce));
    }
  }

  lemma UsedInv(t: Table, id: NxId, nonce: U32)
    requires Inv(t)
    ensures Inv(Used(t, id, nonce))
  {
    SetNonceInv(t, id, nonce);
    SetNonceInv(SetNonce(t, id, nonce).0, id, nonce);
  }

  /**
   * A correctly signed request is accepted exactly when its nonce is above the link's and below the
   * reset region; at nonce UINT32_MAX the 32-bit sum is 0 and every nonce counts as above.
   */
  lemma SignedRequestAccepted(mac: Mac, t: Table, from: NxId, i: nat, p: Params, secured: bool, stale: Tag)
    requires Inv(t) && Find(t, from) == Some(i)
    requires Fits(p) && p.key == t.links[i].key && IsRequest(p.method_) && SignOf(mac, p, MAX_MESSAGE).Ok?
    ensures var a := Authenticate(mac, t, from, Packet(p.method_, true, p.uri, Signed(mac, p)), secured, stale);
      && (a.result == NoError <==> (t.links[i].nonce < p.nonce || t.links[i].nonce == UINT32_MAX) && p.nonce <= UINT32_MAX - NONCE_INTERVAL)
      && (a.result == NoError ==> a.payload == p.payload && a.table == Used(t, from, p.nonce))
  {
    hide Signed, VerifyOf, Inv;
    SignThenVerify(mac, p, MAX_MESSAGE, stale);
    assert SignOf(mac, p, MAX_MESSAGE).value == Signed(mac, p);
    SignedNotEmpty(mac, p);
    assert |p.uri| % 0x100 == |p.uri| && UriInAad(p.uri) == p.uri;
  }

  lemma SignedNotEmpty(mac: Mac, p: Params)
    requires Fits(p)
    ensures Signed(mac, p) != []
  {
  }

  // ---------------------------------------------------------------- what is let in

  /** A message with no security is let in exactly when the method asks for none; nothing changes either way. */
  lemma UnsecuredMessage(mac: Mac, t: Table, from: NxId, pkt: Packet, secured: bool, stale: Tag)
    requires Sized(t) && !pkt.cose
    ensures var a := Authenticate(mac, t, from, pkt, secured, stale);
      && a.table == t && a.payload == pkt.payload
      && a.result == if secured then RequiresSecuredRequest else NoError
  {
  }

  predicate LetIn(result: AuthResult) {
    result == NoError || result == ValidNonceSync || result == ForcedReset
  }

  /** The message carries the MAC, under a key, of its nonce, method, URI and the payload handed on. */
  ghost predicate Vouches(mac: Mac, key: Key, pkt: Packet, payload: Bytes, stale: Tag) {
    var d := Deserialize(pkt.payload, stale);
    && d.Ok? && |payload| < 0xFF && |pkt.uri| % 0x100 <= |pkt.uri|
    && d.value.tag == mac(key, MacStructure(Params(key, d.value.nonce, pkt.code, pkt.uri[..|pkt.uri| % 0x100], payload)))
  }

  /** A nonce that counts as new: above the link's for a request, in 32 bits, and not below it for a response. */
  predicate IsNew(code: U8, current: U32, received: U32) {
    if code < 65 then received > current || current == UINT32_MAX else received >= current
  }

  /**
   * Whatever a secured method lets in, and whatever secured message any method lets in, comes from a linked sender,
   * carries the MAC of what is handed on under the key of that link, and has a new nonce.
   */
  lemma LetInIsVouchedFor(mac: Mac, t: Table, from: NxId, pkt: Packet, secured: bool, stale: Tag)
    requires Inv(t) && (secured || pkt.cose) && LetIn(Authenticate(mac, t, from, pkt, secured, stale).result)
    ensures pkt.cose && Deserialize(pkt.payload, stale).Ok?
    ensures exists i ::
      && UsedBy(t, i, from)
      && Vouches(mac, t.links[i].key, pkt, Authenticate(mac, t, from, pkt, secured, stale).payload, stale)
      && IsNew(pkt.code, t.links[i].nonce, Deserialize(pkt.payload, stale).value.nonce)
  {
    hide Inv, Checked, Used, Vouches, Deserialize, FindFrom, VerifiedPayload;
    InvSized(t);
    var i := Find(t, from).value;
    assert UsedBy(t, i, from);
    CheckedIsVouchedFor(mac, t.links[i].key, pkt, stale);
  }

  lemma CheckedIsVouchedFor(mac: Mac, key: Key, pkt: Packet, stale: Tag)
    requires Checked(mac, key, pkt, stale).Ok?
    ensures var v := Checked(mac, key, pkt, stale).value;
      && Deserialize(pkt.payload, stale).Ok? && v.nonce == Deserialize(pkt.payload, stale).value.nonce
      && Vouches(mac, key, pkt, VerifiedPayload(pkt, v), stale)
  {
    PayloadInBounds(pkt.payload, stale);
    hide Deserialize, MacStructure;
  }

  /** The link in slot i has been heard from with a nonce, which it keeps if it stores nonces; nothing else changes. */
  ghost predicate HeardFrom(t: Table, t': Table, i: int, nonce: U32) {
    0 <= i < |t.links| == |t.persist| &&
    var l := t.links[i];
    var stores := l.securityMode == 0;
    var moves := nonce > l.nonce > 0 && (nonce / 64 > l.nonce / 64 || nonce == 0xFFFF_FFFF);
    Updated(t, t', i, l.(nonce := if stores then nonce else l.nonce, sinceActive := 0),
            t.persist[i] || (stores && (nonce == 0 || moves)))
  }

  lemma UsedMeaning(t: Table, i: nat, id: NxId, nonce: U32)
    requires Inv(t) && UsedBy(t, i, id)
    ensures HeardFrom(t, Used(t, id, nonce), i, nonce)
  {
    hide Inv, SetNonce, ResetSecsSinceActive, FindFrom;
    InvSized(t);
    var t1 := SetNonce(t, id, nonce).0;
    SetNonceMeaning(t, id, nonce);
    SetNonceInv(t, id, nonce);
    OneSlotEach(t, id);
    assert t.links[i].securityMode != 0 ==> t1 == t;
    assert UsedBy(t1, i, id);
    ActivityMeaning(t1, id);
    assert t1.links[i := t1.links[i].(sinceActive := 0)] == t.links[i := t1.links[i].(sinceActive := 0)];
    assert t1.persist[i := t1.persist[i]] == t1.persist && t.persist[i := t.persist[i]] == t.persist;
  }

  /** The packet of a correctly signed message under the key of the link in slot i. */
  ghost predicate IsSigned(mac: Mac, t: Table, i: int, from: NxId, p: Params, pkt: Packet) {
    && UsedBy(t, i, from) && Fits(p) && p.key == t.links[i].key && SignOf(mac, p, MAX_MESSAGE).Ok?
    && pkt == Packet(p.method_, true, p.uri, Signed(mac, p))
  }

  lemma SignedOutcome(mac: Mac, t: Table, from: NxId, i: nat, p: Params, pkt: Packet, secured: bool, stale: Tag)
    requires Inv(t) && IsSigned(mac, t, i, from, p, pkt)
    ensures var a, verdict := Authenticate(mac, t, from, pkt, secured, stale), NonceVerdict(p.method_, t.links[i].nonce, p.nonce);
      && a.result == verdict && a.payload == p.payload
      && a.table == if verdict == InvalidNonce then t else Used(t, from, NonceAfter(verdict, p.nonce))
  {
    hide Signed, VerifyOf, Inv, SignOf, Used, NonceVerdict, NonceAfter, FindFrom;
    OneSlotEach(t, from);
    SignedIsShort(mac, p);
    SignedNotEmpty(mac, p);
    SignedChecks(mac, p, pkt, stale);
    hide Checked, VerifiedPayload;
  }

  lemma SignedChecks(mac: Mac, p: Params, pkt: Packet, stale: Tag)
    requires Fits(p) && SignOf(mac, p, MAX_MESSAGE).Ok? && pkt == Packet(p.method_, true, p.uri, Signed(mac, p))
    ensures var c := Checked(mac, p.key, pkt, stale);
      c.Ok? && c.value.nonce == p.nonce && VerifiedPayload(pkt, c.value) == p.payload
  {
    hide Signed, VerifyOf, SignOf;
    SignThenVerify(mac, p, MAX_MESSAGE, stale);
    SignedIsShort(mac, p);
    assert |p.uri| % 0x100 == |p.uri| && UriInAad(p.uri) == p.uri;
  }

  lemma SignedIsShort(mac: Mac, p: Params)
    requires Fits(p) && SignOf(mac, p, MAX_MESSAGE).Ok?
    ensures SignOf(mac, p, MAX_MESSAGE).value == Signed(mac, p) && |Signed(mac, p)| <= MAX_MESSAGE
  {
    hide Signed, MacStructureOf;
  }

  /**
   * A correctly signed request: refused if its nonce is not new; in the top 64 numbers it forces the nonce back to 0;
   * else it is accepted and its nonce is the link's. The payload handed on is the signed one.
   */
  lemma SignedRequest(mac: Mac, t: Table, from: NxId, i: nat, p: Params, pkt: Packet, secured: bool, stale: Tag)
    requires Inv(t) && IsSigned(mac, t, i, from, p, pkt) && p.method_ < 65
    ensures var a := Authenticate(mac, t, from, pkt, secured, stale);
      && a.payload == p.payload
      && if !IsNew(p.method_, t.links[i].nonce, p.nonce) then a.result == InvalidNonce && a.table == t
         else if p.nonce > 0xFFFF_FFFF - 64 then a.result == ForcedReset && HeardFrom(t, a.table, i, 0)
         else a.result == NoError && HeardFrom(t, a.table, i, p.nonce)
  {
    hide Inv, Used, HeardFrom, Authenticate, SignOf, Signed, FindFrom;
    SignedOutcome(mac, t, from, i, p, pkt, secured, stale);
    UsedMeaning(t, i, from, 0);
    UsedMeaning(t, i, from, p.nonce);
  }

  /**
   * A correctly signed response: refused if its nonce is below the link's; with code 4.06 it synchronises the nonce, the
   * top number meaning 0; else it is accepted and its nonce is the link's. The payload handed on is the signed one.
   */
  lemma SignedResponse(mac: Mac, t: Table, from: NxId, i: nat, p: Params, pkt: Packet, secured: bool, stale: Tag)
    requires Inv(t) && IsSigned(mac, t, i, from, p, pkt) && p.method_ >= 65
    ensures var a := Authenticate(mac, t, from, pkt, secured, stale);
      && a.payload == p.payload
      && if p.nonce < t.links[i].nonce then a.result == InvalidNonce && a.table == t
         else if p.method_ == 4 * 32 + 6 then
           a.result == ValidNonceSync && HeardFrom(t, a.table, i, if p.nonce == 0xFFFF_FFFF then 0 else p.nonce)
         else a.result == NoError && HeardFrom(t, a.table, i, p.nonce)
  {
    hide Inv, Used, HeardFrom, Authenticate, SignOf, Signed, FindFrom;
    SignedOutcome(mac, t, from, i, p, pkt, secured, stale);
    UsedMeaning(t, i, from, 0);
    UsedMeaning(t, i, from, p.nonce);
  }

  /** What the message says its payload is. */
  function ClaimedPayload(pkt: Packet, stale: Tag): (r: Bytes)
    requires Deserialize(pkt.payload, stale).Ok?
  {
    PayloadInBounds(pkt.payload, stale);
    var d := Deserialize(pkt.payload, stale).value;
    pkt.payload[d.payloadAt..d.payloadAt + d.payloadLen]
  }

  /** Everything else that a secured message may be answered with, none of which changes the table. */
  lemma RefusalMeaning(mac: Mac, t: Table, from: NxId, pkt: Packet, secured: bool, stale: Tag)
    requires Inv(t) && pkt.cose
    ensures var a, d := Authenticate(mac, t, from, pkt, secured, stale), Deserialize(pkt.payload, stale);
      && (!LetIn(a.result) ==> a.table == t)
      && (a.result == PayloadSizeInvalid <==> |pkt.payload| == 0 || |pkt.payload| > 98)
      && (a.result == NotLinked <==> 0 < |pkt.payload| <= 98 && !HasLink(t, from))
      && (a.result == MacInvalid || a.result == Unparseable || a.result == AssertionFailed ==> a.payload == [])
      && (a.result == AssertionFailed <==> 0 < |pkt.payload| <= 98 && HasLink(t, from) && d == Err(Aborted))
      && (a.result == MacInvalid ==> d.Ok? && forall i :: UsedBy(t, i, from) ==>
            !Vouches(mac, t.links[i].key, pkt, ClaimedPayload(pkt, stale), stale))
      && (LetIn(a.result) || a.result == InvalidNonce ==> d.Ok? && a.payload == ClaimedPayload(pkt, stale))
  {
    hide Inv, Checked, Used, Deserialize, FindFrom, Vouches, ClaimedPayload, VerifiedPayload;
    InvSized(t);
    OneSlotEach(t, from);
    var i := Find(t, from);
    if i.Some? {
      assert UsedBy(t, i.value, from);
      CheckedErrors(mac, t.links[i.value].key, pkt, stale);
    }
  }

  lemma CheckedErrors(mac: Mac, key: Key, pkt: Packet, stale: Tag)
    ensures var c, d := Checked(mac, key, pkt, stale), Deserialize(pkt.payload, stale);
      && (c == Err(Aborted) <==> d == Err(Aborted))
      && (c == Err(MacTagInvalid) ==> d.Ok? && !Vouches(mac, key, pkt, ClaimedPayload(pkt, stale), stale))
      && (c.Ok? ==> d.Ok? && VerifiedPayload(pkt, c.value) == ClaimedPayload(pkt, stale))
  {
    hide MacStructure, ReadHead;
    DeserializeErrors(pkt.payload, stale);
    PayloadInBounds(pkt.payload, stale);
    hide Deserialize;
  }

  lemma DeserializeErrors(d: Bytes, stale: Tag)
    ensures Deserialize(d, stale) != Err(MacTagInvalid)
  {
    hide ReadHead, SkipContent;
  }
}
