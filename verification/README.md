# Nexus: a verified model of its stateful cores

This Dafny project models the parts of the Nexus embedded library (`nexus/`) and of the Kconfiglib copy it
ships that keep state over time, and proves what they promise over whole runs. `dafny verify dfyconfig.toml`
checks everything.

Code that updates fields, arrays and cursors is modelled as methods of classes that do the same, each proved
equal to a function on values; theorems about those functions then speak about every run. Theorems whose names end
in `Meaning`, and others beside them, say what the functions compute without naming them: which slots, bytes, bits
or reasons, and that nothing else changes. The check value function (SipHash 2-4) and the random salts are
parameters. Integer widths and wrap-around are explicit.

Builds: the model is of the default build, in which the runtime assertions of Nexus are compiled out
(`nexus/src/internal_common_config.h`, lines 47-60), so code behind an assertion runs on with whatever it
was given. The CBOR parser library has assertions of its own; where one fails, its code has no defined result
in a build without them (`nexus/oc/deps/tinycbor/src/compilersupport_p.h`, lines 59-68), and the model says
`Aborted`.

PAYG credit is modelled with and without controller support, which decides what an independent device starts
with (`nexus/src/nexus_channel_res_payg_credit.c`, lines 160-175); process() of a build without
it has no leader part, so the posting schedule is of builds with it.

Secured messages are modelled on a little-endian host. Signing converts the nonce to little-endian order before
it is encoded (`nexus/src/nexus_cose_mac0_common.c`, line 45) and reading never converts it back, so on a
big-endian host `SignThenVerify` would return the nonce with its bytes reversed.

| component | files | main results |
|---|---|---|
| link table | `Links`, `LinkManager`, `LinkIteration`, `LinkLaws` | table invariant in every state; which links each operation keeps; idle links are dropped after 90 days; a restart restores the table; exactly when the accessory walk is one cycle |
| nonces | `SecurityManager`, `NonceProtocol` | what is let in is vouched for by the key of its sender's link; accepted nonces increase over every careful run with restarts; exactly when a replay works |
| secured messages | `Cbor`, `CborItems`, `CoseMac0`, `CoseSign`, `CoseVerify`, `CoseCanonical` | sign then verify; the MAC structure is injective and the item the standard names; skipping passes over one item; exactly which accepted messages are the signed form |
| windows of used ids | `Window` | marking, shifting and searching; used ids stay used; the search that may not end |
| origin commands | `OriginCommand`, `OriginManager` | printing and parsing are inverse; ids applied at most once |
| link handshake | `Handshake`, `HandshakeDevices`, `HandshakeProtocol`, `HandshakeSuccess`, `HandshakeForgery` | an undisturbed handshake links both sides; both sides agree on keys over every run of any number of devices; keys tell handshakes apart; each index once, and where not; what forged responses can do |
| PAYG credit | `PaygCredit`, `PaygDevice`, `PaygLaws` | exact POST schedule of a leader; what credit a device has after start-up and after each call; expiry of a follower; the listing loop |
| keycodes | `KeycodeMas`, `KeycodeAssembler`, `KeycodeExtended` | the frames handed over hold the keys entered; exactly when the two entry paths agree; attempts are paid for, power cycles included; extended ids increase between wipes |
| Kconfiglib | `KconfigExpr`, `KconfigMeaning`, `KconfigCache`, `KconfigStore`, `KconfigParse`, `KconfigLoops`, `KconfigEscape` | what expressions and values mean; cached values are right after any reads and changes; the parser is its grammar; print and parse; loop detection and what it misses; quoting |

## Where the code differs from its documentation or from what one may expect

- Nonce storage: `set_security_data_auth_nonce` sets no persist flag for a jump out of nonce 0, and a restart
  before process() writes a flagged nonce back loses it. `ReplayAfterRestartIff` gives the exact condition
  under which a request is then accepted twice, `JumpFromZeroReplays` a run, and `Careful` the guards a run
  has to respect for `AcceptedNoncesIncrease`: one known security mode, no nonce UINT32_MAX, and no restart
  with a stored nonce more than 64 behind the one in RAM or within 64 of the top. `RunRecoverable` says that
  without a jump of 64 or more out of 0 the stored nonce is never that far behind unless a write is flagged.
- `next_linked_accessory` decides by a count that leaves out dual-mode links, which it walks over. So it returns
  the first accessory for any previous id, linked or not, when the count is one (`UnlinkedHasNoNext`, where its
  documentation says an id that is not linked has no successor), and with dual-mode links it may not go
  round (`NextIsCyclicIff`).
- Idle links are dropped after 90 days, unless one call of process() has so many seconds that the 32-bit sum wraps
  (`IdleLinkIsDropped`, `LongCallKeepsLink`).
- The 300 s timeout of the accessory's handshake never ends anything: every answered POST leaves it idle
  (`PostLeavesServerIdle`).
- The accessory counts properties of a handshake POST, not their names: three times the same one is taken
  (`ThreeModesAreValid`), all three are named exactly when no two of them are the same (`NamesAllThreeIff`), and
  without a challenge among them the one of an earlier request is checked (`ChallengeIsFromPayloadIff`).
- The accessory's search for a handshake index counts in 32 bits up to the end of its window. Once that end is
  UINT32_MAX and no unused index of the window answers, the counter wraps: the search finds used indices below the
  window (`SearchedMeaning`, `TopWindowReusesIndex`, `TopWindowLinksTwice`) or never ends (`EndlessIff`).
  `IndexLinksOnce` holds as long as a challenge that meets such a window is answered by an unused index of it.
- The controller's response handler does not look whether its handshake slot is in use. An idle slot holds a zero key
  and a zero salt, so the check value of the inverted zero salt under the zero key, which takes no secret to
  compute, queues a link to its sender under the zero key (`IdleSlotTakesZeroKey`, `ZeroKeyRun`). With any
  responses allowed a link needs a handshake begun before or this one value (`LinksNeedHandshakeOrZeroKey`).
- Origin command bodies are revealed with the bytes of one check value, of which there are eight
  (`nexus/src/nexus_util.c`, line 58). Commands of up to 20 digits are let in, so bodies of more than eight digits
  (up to 14 behind the six MAC digits) are combined with whatever lies behind those bytes. None of these strings
  parses, whatever that is (`ParsesIff`).
- A whole code handed over with length 0 in the full protocol: the count of keys before the end mark wraps to 255, so
  the 254 keys behind the first are read from memory and pushed (`HandleCompleteKeycode`, which only requires
  that the keys it reads are there).
- Key-by-key and whole-code entry differ in the small protocol for bodies shorter than 14 keys: the whole code
  is finished early (`PathsAgreeIff`).
- Key entry is not timed when the first process() behind a key runs at uptime UINT32_MAX, the number that marks
  a key not timed yet (`EntryTimesOutIff`, `NotTimedAtTop`).
- The bucket may exceed its cap between power-up and the first process() when the configured initial count is
  larger than the bucket (`PowerUpWithinCapIff`), and a power cycle before process() gives back attempts made
  since the last one (`AttemptsArePaidFor`, `PowerCycleIsWorth`).
- An extended code with id 65535 is applied, and masking below the next id in 16 bits, which is 0, marks nothing:
  the code can be entered again (`TopIdAppliesAgain`, `AppliedIsUsedUpIff`). Masking below the lowest id of the
  window marks all of the window (`MaskBelowMeaning`).
- The payload slice that verification hands on assumes a length written in shortest form; otherwise the end of the
  length field is taken as the start of the payload (`SpilledLength`, and `PayloadSliceIsRightIff` for the exact
  condition). The label in the protected header is not compared with 5 (`OtherLabel`), and messages in other than
  shortest form are accepted; `CanonicalIff` says exactly which accepted messages signing could have written.
- Kconfiglib's loop check does not see that a tristate symbol looks at MODULES. A configuration in which MODULES
  needs a tristate symbol loads and has no order of evaluation (`ModulesLoopIsNotReported`); all others that load
  have one (`LoadedGraphIsAcyclicIff`), and their reads end (`OrderedReadsEnd`). In the configuration of
  `ModulesByDefault`, MODULES defaults to a tristate symbol that defaults to m, and a read of either recurses
  without end (`ModulesReadsNeverEnd`). With no default and no prompt on the tristate symbol there would still
  be no order, but its value n is known before MODULES is looked at, and reads would end.

## Model

| member | source | states |
|---|---|---|
| Links.FindFrom | nexus/src/nexus_channel_res_lm.c:285-305 | the first used slot at or above i with this id; none exactly when no used slot there has it |
| Links.OldestAccessory | nexus/src/nexus_channel_res_lm.c:324-346 | the link to evict is the longest established one in the accessory role, and the last of equals |
| Links.ClearSlotInv | nexus/src/nexus_channel_res_lm.c:349-370 | clearing a slot keeps the table invariant and lowers the count by one exactly when the slot was used |
| Links.TickInv | nexus/src/nexus_channel_res_lm.c:168-208 | ageing, timing out and writing back any number of slots keeps the table invariant |
| Links.AddPendingInv | nexus/src/nexus_channel_res_lm.c:209-270 | a queued link always finds a free slot: after the add it is in the table and the count is one higher |
| Links.ProcessInv | nexus/src/nexus_channel_res_lm.c:162-282 | process() keeps the table invariant and leaves nothing queued; after a pending clear no link is left, as it asserts there |
| Links.MakeRoomInv | nexus/src/nexus_channel_res_lm.c:405-444 | when create_link() finds room the id is not in the table and a slot is free |
| Links.CreateLinkInv | nexus/src/nexus_channel_res_lm.c:393-458 | create_link() keeps the table invariant: a queued link has an id not in the table and a free slot waiting for it |
| Links.SetNonceInv | nexus/src/nexus_channel_res_lm.c:561-619 | setting a nonce and resetting the activity timer keep the table invariant |
| Links.RebootRestores | nexus/src/nexus_channel_res_lm.c:105-160 | a restart brings back exactly the links whose device id is not 0, each in its slot with id, role, security mode and key, and the invariant holds again |
| Links.BlankMemoryInv | nexus/src/nexus_channel_res_lm.c:105-160 | first power-up with blank memory satisfies the table invariant |
| LinkLaws.CreateLinkMeaning | nexus/src/nexus_channel_res_lm.c:393-458 | create_link() refuses exactly when a link is queued, or the table is full, the id new and there is no accessory link to evict in the accessory role; it leaves every link as it is but the one with that id or, when full, the longest established accessory link |
| LinkLaws.ProcessMeaning | nexus/src/nexus_channel_res_lm.c:162-282 | what process() makes of each slot: the queued link goes to the first slot without a link that stays; links that stay are aged and written back if flagged; all others are erased in RAM and nonvolatile memory |
| LinkLaws.ClearAllMeaning | nexus/src/nexus_channel_res_lm.c:383-391 | after clear_all_links() the next process() erases every link in RAM and nonvolatile memory; a queued link goes in first, and then the call after it does |
| LinkLaws.NoRoomForPending | nexus/src/nexus_channel_res_lm.c:209-270 | a queued link that finds no free slot is dropped and nothing else changes |
| LinkLaws.IdleLinkIsDropped | nexus/src/nexus_channel_res_lm.c:168-208 | over any calls of process() a link nobody uses is dropped and erased once more than 90 days have passed and not before, as long as no single call wraps the 32-bit sum |
| LinkLaws.LongCallKeepsLink | nexus/src/nexus_channel_res_lm.c:168-208 | a call of 2^32 - 1 seconds wraps the sum and an idle link stays |
| LinkLaws.SetNonceMeaning | nexus/src/nexus_channel_res_lm.c:561-603 | setting a nonce changes it for the link with that id and no other, and flags it exactly when the nonce is 0 or moves from one above 0 into a later interval of 64 |
| LinkLaws.ActivityMeaning | nexus/src/nexus_channel_res_lm.c:605-619 | activity resets the timer of the link with that id and changes nothing else |
| LinkLaws.RestartMeaning | nexus/src/nexus_channel_res_lm.c:105-160 | a restart takes over each stored link as it is, with its nonce 64 further on and flagged, and nothing else |
| LinkManager.LinkManager.constructor | nexus/src/nexus_channel_res_lm.c:105-160 | power-up builds the table that Links.Init gives for the nonvolatile blocks |
| LinkManager.LinkManager.Init | nexus/src/nexus_channel_res_lm.c:105-160 | RAM is rebuilt from nonvolatile memory: count, flags, and every nonce moved one interval on, with 32-bit wrap |
| LinkManager.LinkManager.Process | nexus/src/nexus_channel_res_lm.c:162-282 | the loop over slots, the queued add and the pending clear in place refine Links.Process, about which the lemmas above speak |
| LinkManager.LinkManager.ProcessSlot | nexus/src/nexus_channel_res_lm.c:168-208 | one slot: age, clear on timeout, or write a flagged link back and drop the flag; all other slots unchanged |
| LinkManager.LinkManager.AddPendingLink | nexus/src/nexus_channel_res_lm.c:209-270 | the queued link goes to the first free slot and straight to nonvolatile memory |
| LinkManager.LinkManager.CreateLink | nexus/src/nexus_channel_res_lm.c:393-458 | in-place refinement of Links.CreateLink, with its result |
| LinkManager.LinkManager.OldestAccessoryLinkIdx | nexus/src/nexus_channel_res_lm.c:324-346 | the running maximum over the slots finds the slot OldestAccessory specifies |
| LinkManager.LinkManager.SetSecurityDataAuthNonce | nexus/src/nexus_channel_res_lm.c:561-603 | in-place refinement of SetNonce: new nonce, and a persist flag that is only ever raised |
| LinkManager.FindBoundary | nexus/src/nexus_channel_res_lm.c:579-599 | the boundary loop ends within one interval of steps for all 32-bit pairs, also when the counter wraps, and finds a boundary exactly when new/64 exceeds old/64 or new is UINT32_MAX |
| LinkManager.LinkManager.NextLinkedAccessory | nexus/src/nexus_channel_res_lm.c:627-687 | the two loops compute NextAccessory, whose cycle is proved below |
| LinkManager.LinkManager.AccessoryLinkCount | nexus/src/nexus_channel_res_lm.c:689-706 | the number of used slots in the controller role |
| LinkIteration.NextStarts | nexus/src/nexus_channel_res_lm.c:627-653 | without a previous id the walk starts at the first linked accessory, and finds none only when none is linked |
| LinkIteration.LinkedAccessoriesMeaning | nexus/src/nexus_channel_res_lm.c:627-687 | the walk is over exactly the used links in which this device is not the accessory, by slot |
| LinkIteration.NextIs | nexus/src/nexus_channel_res_lm.c:627-687 | where the walk goes from the k-th linked accessory, on every table: back to the first when the count is one, nowhere from a single one that is not counted, else to the next in slot order and from the last to the first |
| LinkIteration.NextIsCyclicIff | nexus/src/nexus_channel_res_lm.c:627-687 | the walk is one cycle over all linked accessories exactly when the count is one just for a single one; so on every table with only the two roles of the handshake |
| LinkIteration.WalkListsAllIff | nexus/src/nexus_channel_res_lm.c:627-706 | a walk from the first accessory until it ends or is back there meets all of them exactly unless just one of several is counted |
| LinkIteration.AccessoriesDistinct | nexus/src/nexus_channel_res_lm.c:627-687 | the walk meets every linked accessory once |
| LinkIteration.UnlinkedHasNoNext | nexus/src/nexus_channel_res_lm.c:627-687 | an id that is not linked has no successor exactly when the count of linked accessories is not one, on every table |
| SecurityManager.AuthenticateMessage | nexus/src/nexus_channel_sm.c:139-332 | authentication on the live link table: verdict, payload handed on and new table equal Authenticate |
| SecurityManager.AuthenticateInv | nexus/src/nexus_channel_sm.c:139-332 | no message, whatever its bytes, breaks the table invariant |
| SecurityManager.SignedRequestAccepted | nexus/src/nexus_channel_sm.c:229-309 | a correctly signed request is accepted exactly when its nonce is above the stored one (or that is UINT32_MAX, where the 32-bit sum wraps) and below the reset region; then payload and nonce are the signed ones |
| SecurityManager.UnsecuredMessage | nexus/src/nexus_channel_sm.c:318-331 | a message with no security is let in exactly when the method asks for none, with its payload; the table never changes |
| SecurityManager.LetInIsVouchedFor | nexus/src/nexus_channel_sm.c:139-332 | whatever a secured method lets in is a COSE message of a linked sender, its tag is the MAC, under the key of that link, of nonce, method, URI and the payload handed on, and its nonce is new |
| SecurityManager.SignedRequest | nexus/src/nexus_channel_sm.c:222-257 | a correctly signed request is refused if its nonce is not above the stored one, forces the nonce to 0 in the top 64 numbers, and is accepted otherwise; what changes in the table is stated field by field |
| SecurityManager.SignedResponse | nexus/src/nexus_channel_sm.c:258-317 | a correctly signed response is accepted from the stored nonce on; with code 4.06 it synchronises the nonce, the top number to 0 |
| SecurityManager.RefusalMeaning | nexus/src/nexus_channel_sm.c:165-215 | which secured messages are refused for their size, their sender, their MAC or their form; none of them changes the table, and one refused for its MAC does not carry it |
| NonceProtocol.StaysRecoverableIff | nexus/src/nexus_channel_res_lm.c:579-599 | a nonce change leaves the stored copy within one interval, or a write flagged, exactly unless the nonce leaves 0 by an interval or more with no flag set |
| NonceProtocol.TickView | nexus/src/nexus_channel_res_lm.c:168-208 | each slot ages and times out or is written back on its own: other slots do not matter |
| NonceProtocol.RestartMovesOnIff | nexus/src/nexus_channel_res_lm.c:125-140 | after a restart with no flag pending a slot stored in its interval has a nonce above the one it had, and above every accepted one, exactly when the stored nonce is below 2^32 - 64 |
| NonceProtocol.RunRecoverable | nexus/src/nexus_channel_res_lm.c:561-619 | over every careful run in which no message jumps out of nonce 0, the nonce of a peer is flagged for writing or stored in its interval of 64, so a restart with nothing flagged is a careful one |
| NonceProtocol.RunPlain | nexus/src/nexus_channel_res_lm.c:393-458 | over every run in which new links get the accessory or controller role no other role appears, so the walk lists every linked accessory |
| NonceProtocol.StepSafe | nexus/src/nexus_channel_sm.c:139-332 | each message, tick, restart, new link and clear keeps: accepted nonces increase, and the nonce in RAM is at least the last one accepted |
| NonceProtocol.NextInv | nexus/src/nexus_channel_res_lm.c:105-458 | the table invariant holds in every state reachable by messages, ticks, restarts, new links and clears |
| NonceProtocol.AcceptedNoncesIncrease | nexus/src/nexus_channel_sm.c:229-309 | over every run from blank memory whose restarts find the stored nonce at most 64 behind the one in RAM: of two requests accepted from a peer with no return to 0 between them, the later has the larger nonce |
| NonceProtocol.RepeatRefused | nexus/src/nexus_channel_sm.c:238-245 | an accepted request that arrives again is refused, exactly on links of the security mode that stores nonces |
| NonceProtocol.ReplayAfterRestartIff | nexus/src/nexus_channel_res_lm.c:125-140 | after a restart right behind an accepted request the same request is accepted again exactly when its nonce is above the stored one plus 64, in 32 bits, or that sum is UINT32_MAX |
| NonceProtocol.JumpFromZeroReplays | nexus/src/nexus_channel_res_lm.c:583-599 | six events from first power-up after which the log is not increasing: a new link, its storage, nonce 200 accepted, process() with nothing to write, a restart with no flag pending, nonce 200 accepted again |
| Cbor.ReadEncodedHead | nexus/oc/deps/tinycbor/src/cborparser.c:173-330 | reading a written head gives back its major type and number and stops right behind it |
| Cbor.HeadsAreSelfDelimiting | nexus/oc/deps/tinycbor/src/cborencoder.c:304-336 | a written head determines its number and what follows it |
| Cbor.ByteStringsAreSelfDelimiting | nexus/oc/deps/tinycbor/src/cborencoder.c:455-489 | a written byte string determines its content and what follows it |
| CborItems.EncodeHeadMeaning | nexus/oc/deps/tinycbor/src/cborencoder.c:304-342 | the head written has the major type in its top three bits and the number in the others or behind, big-endian, and no shorter head is one for it |
| CborItems.ReadHeadMeaning | nexus/oc/deps/tinycbor/src/cborparser.c:173-330 | a head is read exactly when it is there in full and allowed, as the major type and number its bytes mean |
| CborItems.SkipsOneItem | nexus/oc/deps/tinycbor/src/cborparser.c:550-600 | where any item is written, tags, lists and maps nested to any depth included, skipping ends right behind it, or fails exactly if it is nested deeper than allowed |
| CoseSign.CborEncoder.Append | nexus/oc/deps/tinycbor/src/cborencoder.c:273-296 | bytes are appended exactly when they fit, else nothing is written |
| CoseSign.CborEncoder.EncodeNumber | nexus/oc/deps/tinycbor/src/cborencoder.c:304-342 | the head of an item is appended in shortest form exactly when it fits |
| CoseSign.CborEncoder.EncodeString | nexus/oc/deps/tinycbor/src/cborencoder.c:455-489 | head and content of a string are appended; it succeeds exactly when both fit |
| CoseSign.EncodeProtectedHeaderMap | nexus/src/nexus_cose_mac0_common.c:31-71 | the header buffer holds the map from 5 to the nonce; a buffer under 7 bytes is left alone and the length is 0 |
| CoseSign.MacParamsToMacStructure | nexus/src/nexus_cose_mac0_common.c:73-176 | the item-by-item construction with one reused scratch buffer yields the MAC_structure of RFC 8152 section 6.3, or the same error |
| CoseSign.InputAndTagToMessage | nexus/src/nexus_cose_mac0_sign.c:20-107 | the message array is built in the buffer of the caller, of any size; too small a buffer is an encoder error, a message over 98 bytes a size error |
| CoseSign.SignEncodeMessage | nexus/src/nexus_cose_mac0_sign.c:109-155 | signing into a buffer writes exactly the specified message and its length, or returns the specified error |
| CoseVerify.DeserializeProtectedHeader | nexus/src/nexus_cose_mac0_verify.c:20-83 | the header parser accepts and returns what ParseHeader specifies |
| CoseVerify.AdvanceItems | nexus/oc/deps/tinycbor/src/cborparser.c:550-600 | the recursive skip over items ends where SkipItems says, or fails where it does |
| CoseVerify.DeserializeProtectedMessage | nexus/src/nexus_cose_mac0_verify.c:85-222 | the parser cursor fills in exactly what Deserialize specifies, or returns its error |
| CoseVerify.VerifyMessage | nexus/src/nexus_cose_mac0_verify.c:224-295 | in-place verification returns the result of VerifyOf |
| CoseMac0.SignedSize | nexus/src/nexus_cose_mac0_sign.c:20-107 | the exact size of a signed message: at most 98 bytes for payloads up to 77 bytes, more for payloads over 94 |
| CoseMac0.MacStructureFits | nexus/src/nexus_cose_mac0_common.c:73-176 | the MAC structure fits its 123-byte buffer for a URI up to 11 and a payload up to 94 bytes |
| CoseMac0.SignSucceedsIff | nexus/src/nexus_cose_mac0_sign.c:109-155 | signing succeeds exactly with a 98-byte buffer, a URI up to 11 bytes and a message within 98 bytes; always for payloads up to 77 bytes |
| CoseMac0.SignErrors | nexus/src/nexus_cose_mac0_sign.c:20-155 | which error signing gives, for the buffer, the URI, the MAC structure and the message size |
| CoseMac0.MacStructureInjective | nexus/src/nexus_cose_mac0_common.c:73-176 | the MAC structure determines nonce, method, URI and payload |
| CborItems.HeaderIsItem | nexus/src/nexus_cose_mac0_common.c:31-71 | the protected header is the CBOR map from 5 to the nonce |
| CborItems.MacStructureIsItem | nexus/src/nexus_cose_mac0_common.c:73-176 | the MAC is over the CBOR list of the text MAC0, the header, method and URI, and the payload |
| CborItems.MessageIsItem | nexus/src/nexus_cose_mac0_sign.c:20-107 | a message is the CBOR list of the header, an empty map, the payload and the tag |
| CoseMac0.SignThenVerify | nexus/src/nexus_cose_mac0_verify.c:224-295 | verifying a signed message with the same context gives no error, the nonce and exactly the payload slice |
| CoseMac0.AcceptedIsSigned | nexus/src/nexus_cose_mac0_verify.c:224-295 | an accepted message carries the MAC of what is returned, so with the tag of signed parameters it has their nonce, method, URI and payload unless the MAC collides |
| CoseCanonical.PayloadSliceIsRightIff | nexus/src/nexus_cose_mac0_verify.c:156-222 | the payload slice handed on starts at the content exactly when the low five bits of the head byte are the smaller of the length and 24; otherwise its bytes are still the content exactly when the content repeats the end of its own length field |
| CoseCanonical.SpilledLength | nexus/src/nexus_cose_mac0_verify.c:156-222 | a message with the length 2 in a byte of its own is read without error, and the slice handed on is that length byte and the first content byte |
| CoseCanonical.CanonicalIff | nexus/src/nexus_cose_mac0_verify.c:20-222 | a message that is read is byte for byte what signing writes for the nonce, payload and tag handed on exactly when all heads are shortest, the label is 5, the unprotected map is empty, the tag has 8 bytes and nothing follows |
| CoseCanonical.AcceptedIsSignedForm | nexus/src/nexus_cose_mac0_verify.c:224-295 | an accepted message is the signed form of what it is accepted as exactly under the same condition |
| CoseCanonical.OtherLabel | nexus/src/nexus_cose_mac0_verify.c:45-66 | the header {6: 1} is read like {5: 1}, so the label is not compared with 5 |
| CoseCanonical.ReadIff | nexus/src/nexus_cose_mac0_verify.c:20-222 | exactly which messages are read: a list of four, a header of 1 to 7 bytes with a nonce, any map that is not nested too deep, a payload under 255 bytes and a tag of 1 to 8 |
| CoseMac0.ParseHeaderMeaning | nexus/src/nexus_cose_mac0_verify.c:20-83 | a header is accepted exactly when it is a map of one pair from an integer to an unsigned 32-bit number, which is the nonce; an assertion of the parser fails exactly when that number is negative or another pair follows |
| CoseMac0.MacStructureOfMeaning | nexus/src/nexus_cose_mac0_common.c:73-176 | the MAC is computed exactly for a URI of at most 11 bytes and a structure of at most 123 bytes, with the error for each |
| CoseCanonical.TagAsCompared | nexus/src/nexus_cose_mac0_verify.c:180-222 | a tag of fewer than eight bytes is compared as those bytes, a zero and what the field held before |
| Window.WithinMeaning | nexus/src/nexus_util.c:365-374 | the 32-bit range check means an interval around the center; once an end wraps around, no id is in the window |
| Window.SetIdMarks | nexus/src/nexus_util.c:432-511 | marking an id of the window uses up that id and those that fall below the window, nothing else, and the center becomes the larger of the two |
| Window.SetIdOutside | nexus/src/nexus_util.c:432-448 | an id outside the window changes nothing |
| Window.SetIdIdempotent | nexus/src/nexus_util.c:432-511 | marking an id twice is marking it once, as documented, also in a window with a wrapped end |
| Window.ConsumedStays | nexus/src/nexus_util.c:432-511 | a used id stays used, also below the window, and the center never decreases |
| Window.Least | nexus/src/nexus_channel_om.c:462-496 | the search yields the least usable id that passes the check, or none exactly when none passes |
| Window.LeastIsFresh | nexus/src/nexus_channel_om.c:462-544 | the id found was never used before and is used after marking |
| Window.IdWindow.SetIdFlag | nexus/src/nexus_util.c:432-511 | flag array and center in memory follow SetId |
| Window.IdWindow.MoveFlags | nexus/src/nexus_util.c:463-500 | the shift through a temporary mask, or the clear on a long move, yields the moved flags |
| Window.IdWindow.SearchUp | nexus/src/nexus_channel_om.c:480-494 | the search loop ends for every window and returns the least id of the specification |
| Window.SearchedIsLeast | nexus/src/nexus_channel_res_link_hs.c:406-468 | a search with a 32-bit counter up to the top id finds the least usable id that passes whenever there is one; when there is none it finds nothing, unless the top id is UINT32_MAX |
| Window.SearchedMeaning | nexus/src/nexus_channel_res_link_hs.c:406-468 | the id found passes the check; it is a used one, or outside the window, exactly when the top id is UINT32_MAX and no usable id passes |
| Window.EndlessIff | nexus/src/nexus_channel_res_link_hs.c:406-468 | the search never ends exactly when the top id is UINT32_MAX and no 32-bit number passes that is not marked |
| OriginCommand.InterleavingIsABijection | nexus/src/nexus_channel_om.c:143-183 | under every MAC, and whatever lies behind its eight bytes, revealing the digits is a bijection on strings of up to 14 digits, with obscuring as its inverse |
| OriginCommand.PrintThenParse | nexus/src/nexus_channel_om.c:186-263 | the printed form of every sendable message parses back to it |
| OriginCommand.ParseThenPrint | nexus/src/nexus_channel_om.c:186-263 | a string that parses is the printed form of its message |
| OriginCommand.ParseInjective | nexus/src/nexus_channel_om.c:186-263 | two digit strings never parse to the same type, body and MAC |
| OriginCommand.ParsesIff | nexus/src/nexus_channel_om.c:186-263 | of the strings let in, of up to 20 digits, exactly those of 9, 8 and 13 digits with the matching type digit parse, whatever lies behind the pseudorandom bytes in memory |
| OriginCommand.CommandFields | nexus/src/nexus_channel_om.c:186-263 | the last six digits are the MAC, and each other digit typed is the hidden one plus the byte of the MAC at its place modulo 10; the first hidden digit is the type, the rest the body |
| OriginCommand.FirstDigitCountsMost | nexus/src/nexus_util.c:221-234 | digits are read as a decimal number whose first digit counts most |
| OriginCommand.MathMod10 | nexus/src/nexus_channel_om.c:131-141 | the loop computes the remainder in 0..9 for negative numbers as well |
| OriginCommand.DeinterleaveDigits | nexus/src/nexus_channel_om.c:143-183 | the body is revealed digit by digit and the MAC digits are copied |
| OriginCommand.Digits.PullUint32 | nexus/src/nexus_util.c:221-234 | pulling any number of digits gives the number they write modulo 2^32 and moves the cursor by as many |
| OriginCommand.ReadDigits | nexus/src/nexus_channel_om.c:547-573 | a command is taken exactly when it has at most 20 characters, all digits |
| OriginCommand.ParseMessage | nexus/src/nexus_channel_om.c:186-263 | parsing with a digit cursor and the per-type extractors gives the message of the one-expression specification |
| OriginManager.OriginManager.InferCommandId | nexus/src/nexus_channel_om.c:462-496 | the inferred command id is the least unused id of the window that matches the MAC, for unlock and unlink commands too |
| OriginManager.InferInnerComputeAuth | nexus/src/nexus_channel_om.c:284-455 | the MAC test for one command id: of the listed accessories the loop finds the only one whose last digit and MAC an unlock or unlink command has, if there is one |
| OriginManager.AuthenticMeaning | nexus/src/nexus_channel_om.c:265-455 | the six MAC digits are the last decimal digits of the check value of command id, type and body, or of the whole id of a listed accessory that ends in the body digit, in little-endian bytes |
| OriginManager.AuthenticatedBytesTellApart | nexus/src/nexus_channel_om.c:284-455 | the bytes the MAC is made of determine command id, type and body or accessory |
| OriginManager.OriginManager.ApplyMessage | nexus/src/nexus_channel_om.c:499-544 | reading the stored window, inferring, applying, marking and storing: the state and result of Apply |
| OriginManager.AppliedIff | nexus/src/nexus_channel_om.c:499-544 | a command is applied exactly when the core takes it and some usable id matches its MAC; the id is the least such |
| OriginManager.AppliedUsesUp | nexus/src/nexus_channel_om.c:499-544 | an applied command uses up its id and what falls below the window, and nothing else, and is stored; any other changes nothing |
| OriginManager.FirstCommandIds | nexus/src/nexus_channel_om.c:73-82 | on a device with blank memory exactly the command ids up to 39 can be used |
| OriginManager.NothingUsableIff | nexus/src/nexus_channel_om.c:462-496 | no command can be applied any more exactly once the center is above UINT32_MAX - 8 |
| OriginManager.IdsAppliedOnce | nexus/src/nexus_channel_om.c:499-544 | over every run of commands and restarts no command id is applied twice and the center never moves down |
| OriginManager.RestartChangesNothing | nexus/src/nexus_channel_om.c:73-82 | what init reads back is the window as it was |
| Handshake.ServerPostInv | nexus/src/nexus_channel_res_link_hs.c:749-841 | every POST keeps the invariant of the accessory; an accepted one costs an index that answers the request, and that index was used before exactly when the window ends at UINT32_MAX and no unused index in it answers |
| Handshake.ServerPostUsesUp | nexus/src/nexus_channel_res_link_hs.c:716-745 | an accepted challenge uses up its index and what falls below the window, and nothing else; no other POST changes the window |
| Handshake.FirstIndices | nexus/src/nexus_channel_res_link_hs.c:99-198 | with blank memory exactly the indices up to 23 can be used; a restart takes over the stored window and no handshake |
| Handshake.LinkKeyHalves | nexus/src/nexus_channel_res_link_hs.c:304-345 | each half of a link key is the check value, under its own derivation key, of twelve bytes: the salt and the digits, little-endian |
| Handshake.LinkKeyInjective | nexus/src/nexus_channel_res_link_hs.c:304-345 | equal link keys come from the same digits and salt unless the derivation collides on those twelve bytes |
| Handshake.ChallengeIntMeaning | nexus/src/nexus_channel_res_link_hs.c:406-437 | the digits of an index are the last six decimal digits of the low four bytes of the check value of its little-endian bytes under the origin key |
| Handshake.EchoNeedsCollision | nexus/src/nexus_channel_res_link_hs.c:1016-1118 | a challenge sent back to its controller as a response is taken only if the MAC collides on the salt and its complement |
| Handshake.TopWindowReusesIndex | nexus/src/nexus_channel_res_link_hs.c:406-468 | a window that ends at UINT32_MAX: the counter wraps and a challenge for the used index 0 is accepted, again and again, without changing the window |
| Handshake.ValidPayloadMeaning | nexus/src/nexus_channel_res_link_hs.c:604-713 | the accessory takes three properties, challenge data of 16 bytes and modes of 0, each size and number compared modulo 256 |
| Handshake.NamesAllThreeIff | nexus/src/nexus_channel_res_link_hs.c:664-713 | a valid payload of three properties names all three exactly when no two name the same |
| Handshake.ThreeModesAreValid | nexus/src/nexus_channel_res_link_hs.c:664-713 | three challenge modes are a valid payload, which leaves the challenge of an earlier request to be checked |
| Handshake.ChallengeIsFromPayloadIff | nexus/src/nexus_channel_res_link_hs.c:664-713 | the challenge checked is independent of earlier requests exactly when the payload names one |
| Handshake.RequestIsTaken | nexus/src/nexus_channel_res_link_hs.c:664-713 | the payload a controller sends is taken whole: the accessory checks exactly that challenge |
| Handshake.AnsweredChallenge | nexus/src/nexus_channel_res_link_hs.c:380-468 | a challenge is answered exactly when it queues a link, and then: the check value is right under the key of an index, the queued link is to the sender under that key, and the response is the check value of the inverted salt |
| Handshake.QueuedLink | nexus/src/nexus_channel_res_lm.c:393-458 | create_link() says yes exactly when it puts that link into the empty queue |
| Handshake.TakenResponse | nexus/src/nexus_channel_res_link_hs.c:1016-1125 | a controller queues a link exactly for a response with the check value of its client when the table takes the link, and then frees the client; otherwise the clients stay |
| Handshake.FirstResponseDecides | nexus/src/nexus_channel_res_link_hs.c:1016-1125 | the first property named as a response decides: if it has the wrong form or value, or the table takes no link, nothing is queued whatever follows it |
| Handshake.PostLeavesServerIdle | nexus/src/nexus_channel_res_link_hs.c:716-841 | every POST that is answered leaves the server idle, so the timeout of the accessory has nothing to end |
| HandshakeDevices.HandshakeServer.ValidateChallenge | nexus/src/nexus_channel_res_link_hs.c:380-468 | the search loop with its 32-bit counter has the outcome of Searched: the index found with the key derived for it, none, or a counter that comes round without end |
| HandshakeDevices.HandshakeServer.FinalizeSuccessState | nexus/src/nexus_channel_res_link_hs.c:716-745 | the index is marked and stored, the response set, the server idle |
| HandshakeDevices.HandshakeServer.Post | nexus/src/nexus_channel_res_link_hs.c:749-841 | the POST handler of the accessory in place: state, reply and accepted link of ServerPost |
| HandshakeDevices.HandshakeServer.Process | nexus/src/nexus_channel_res_link_hs.c:200-232 | an unfinished handshake times out after 300 s |
| Handshake.ServerGivesUp | nexus/src/nexus_channel_res_link_hs.c:200-232 | over any calls of process() without 16-bit wrap a handshake left alone is dropped after 300 s and not before |
| HandshakeDevices.HandshakeClient.LinkMode3 | nexus/src/nexus_channel_res_link_hs.c:918-1004 | a handshake starts in the first idle slot with derived key and challenge, or not at all when all are busy |
| HandshakeDevices.HandshakeClient.HandleRep | nexus/src/nexus_channel_res_link_hs.c:1054-1118 | one property of a response, in place |
| HandshakeDevices.HandshakeClient.Post | nexus/src/nexus_channel_res_link_hs.c:1016-1125 | the response handler in place, stopping at the first property it rejects |
| HandshakeDevices.HandshakeClient.Process | nexus/src/nexus_channel_res_link_hs.c:233-283 | each active client ages, times out after an hour, and posts again 5 s after its last post, in 16-bit arithmetic |
| Handshake.ClientGivesUp | nexus/src/nexus_channel_res_link_hs.c:233-283 | over any calls of process() without 16-bit wrap a controller that hears nothing gives up after an hour and not before |
| Handshake.PostsEveryFiveSeconds | nexus/src/nexus_channel_res_link_hs.c:233-283 | called every second, it posts its challenge once in five seconds, 720 times in all |
| Handshake.LongCallCountsAsNone | nexus/src/nexus_channel_res_link_hs.c:233-283 | the timers of a handshake count in 16 bits: a call with 65536 s leaves them as they were |
| HandshakeProtocol.NextInv | nexus/src/nexus_channel_res_link_hs.c:200-1125 | every command, delivery, tick and restart of any device keeps the system invariant |
| HandshakeProtocol.HandshakesAgree | nexus/src/nexus_channel_res_link_hs.c:749-1118 | over every run on a network that loses, repeats and reorders but does not forge, and unless check values of the run collide: every link a controller queued to an accessory was queued before by that accessory to it under the same key and salt, and before that the controller had started a handshake whose digits give that key, the key of the index used up |
| HandshakeSuccess.UndisturbedHandshake | nexus/src/nexus_channel_res_link_hs.c:200-1125 | a handshake that nothing disturbs succeeds: from every fresh system, a command with the digits of a usable index, five seconds, the challenge and the response make both devices queue a link to each other under the same key, if both tables take one and no index with other digits answers |
| HandshakeProtocol.LinkKeysTellApart | nexus/src/nexus_channel_res_link_hs.c:304-345 | over every run in which neither check values nor the key derivation collide: links under different salts have different keys, even for the same digits, and links of accessories with the same key have the same digits |
| HandshakeProtocol.IndexLinksOnce | nexus/src/nexus_channel_res_link_hs.c:716-745 | over every run, restarts included and whatever the check values, an accessory queues at most one link for each handshake index, as long as a challenge that meets a window ending at UINT32_MAX is answered by an unused index of it |
| HandshakeProtocol.TopWindowLinksTwice | nexus/src/nexus_channel_res_link_hs.c:406-468 | five steps at such a window after which an accessory has queued two links for index 0 |
| HandshakeForgery.ResponsesTaken | nexus/src/nexus_channel_res_link_hs.c:1016-1125 | a response of any properties from anyone changes nothing, or it carries the check value of the key and salt in that slot and queues one link to its sender under that key, freeing the slot |
| HandshakeForgery.LinksNeedHandshakeOrZeroKey | nexus/src/nexus_channel_res_link_hs.c:1016-1125 | over every run in which any response may reach any slot of a controller: each link queued is under the key and salt of a handshake begun before, or under the all-zero key and salt, and its response carries the check value of them |
| HandshakeForgery.IdleSlotTakesZeroKey | nexus/src/nexus_channel_res_link_hs.c:1016-1125 | an idle slot queues a link exactly for the one check value under the zero key when the table takes the link, and then under the zero key |
| HandshakeForgery.ZeroKeyRun | nexus/src/nexus_channel_res_link_hs.c:1016-1125 | one such response to a controller that never began a handshake queues a link under the zero key |
| PaygCredit.NextIdIsFound | nexus/src/nexus_channel_res_payg_credit.c:459-478 | on every table in its invariant that counts an accessory a next one is found from every id that is linked or null |
| PaygCredit.ProcessFindsNext | nexus/src/nexus_channel_res_payg_credit.c:407-478 | so what process() asserts there holds in every call |
| PaygCredit.PlainIsSteady | nexus/src/nexus_channel_res_payg_credit.c:407-558 | tables with only the two roles of the handshake, an accessory linked and no link to the null id are ones the schedule is proved for |
| PaygCredit.FirstPost | nexus/src/nexus_channel_res_payg_credit.c:407-558 | the first call after start-up, or after a stored id went out of use, posts to the first accessory |
| PaygCredit.StepOnSchedule | nexus/src/nexus_channel_res_payg_credit.c:480-558 | a call no later than the next POST is due posts exactly when it is due, to the next accessory, and otherwise asks to be called when it is |
| PaygCredit.StateChangeIsPostedAtOnce | nexus/src/nexus_channel_res_payg_credit.c:407-558 | a change of PAYG state is posted by the very next call, to the accessory whose turn it is, even in mid-cycle |
| PaygCredit.LeaderSchedule | nexus/src/nexus_channel_res_payg_credit.c:407-558 | over every punctual run with fixed links: POST j is made at Due(j) to accessory Turn(j), and the POSTs made are exactly those due so far; the number of accessories is always one the schedule has room for |
| PaygCredit.TurnAndDue | nexus/src/nexus_channel_res_payg_credit.h:59-67 | Turn(j) is j mod n and Due(j) is 25 (j div n) + 2 (j mod n): slot order, 2 s apart, every accessory every 25 s, for n up to 12 |
| PaygDevice.PaygResource.constructor | nexus/src/nexus_channel_res_payg_credit.c:196-273 | start-up with and without controller support: mode, initial credit and timers |
| PaygDevice.PaygResource.GetCreditOperatingMode | nexus/src/nexus_channel_res_payg_credit.c:96-123 | the mode from the roles of the used links |
| PaygLaws.ModeMeaning | nexus/src/nexus_channel_res_payg_credit.c:96-123 | a device leads exactly when it is the controller on a used link, follows exactly when it is the accessory on one, and relays when it is both |
| PaygLaws.StartMeaning | nexus/src/nexus_channel_res_payg_credit.c:150-273 | unlocked stays unlocked; a device that only follows, or has no links in a build without controller support, starts with 0; any other with its stored credit |
| PaygLaws.CreditAfterCall | nexus/src/nexus_channel_res_payg_credit.c:352-405 | each call takes over the credit of the product and erases it exactly on a locked device that only follows and was not updated for 75 s, or that has just lost its controller and has no link left |
| PaygLaws.SleepWithoutAccessories | nexus/src/nexus_channel_res_payg_credit.c:352-430 | with no accessory a call posts nothing and asks for the next one when 75 s are over for a follower, else in 240 s; its posting cycle stands still, or restarts with a change of PAYG state |
| PaygLaws.UnsentFirstPostIsRepeated | nexus/src/nexus_channel_res_payg_credit.c:480-558 | a first POST that does not go out starts no cycle: the next call posts to the first accessory again |
| PaygLaws.UnsentWithinCycle | nexus/src/nexus_channel_res_payg_credit.c:480-558 | within a cycle it makes no difference whether a POST goes out |
| PaygDevice.PaygResource.ProcessFollower | nexus/src/nexus_channel_res_payg_credit.c:365-405 | the part of a follower in process(), in place |
| PaygDevice.PaygResource.PrepareCycle | nexus/src/nexus_channel_res_payg_credit.c:407-457 | the cycle restarts on a change of PAYG state or when a stored id is no longer linked |
| PaygDevice.PaygResource.ProcessLeader | nexus/src/nexus_channel_res_payg_credit.c:480-558 | the part of a leader in process(), in place, with its early returns |
| PaygDevice.PaygResource.ListControlledIds | nexus/src/nexus_channel_res_payg_credit.c:605-678 | the listing loop of the GET handler ends on every table and emits what Walked specifies: every linked accessory once, in slot order, or only the first when just one of several is counted |
| PaygDevice.PaygResource.ExtractCredit | nexus/src/nexus_channel_res_payg_credit.c:282-312 | the credit taken is the last usable one, modulo 2^32; there is none exactly when no property is usable |
| PaygDevice.PaygResource.UpdateFromPostOrGet | nexus/src/nexus_channel_res_payg_credit.c:126-147 | a credit update sets or unlocks, and restarts the expiry of a follower |
| PaygDevice.ErasedAfter75Seconds | nexus/src/nexus_channel_res_payg_credit.c:365-405 | over every punctual run of a locked follower that hears nothing: its credit is erased once 75 s have passed and not before, by the call at 75 s |
| KeycodeMas.GraceCountMeaning | nexus/src/nexus_keycode_mas.c:151-173 | the grace count is the smaller of the initial count and the whole attempts in the bucket |
| KeycodeMas.PathsAgreeIff | nexus/src/nexus_keycode_mas.c:426-474 | entering a code key by key and all at once give the handler the same frame and leave the same state from every state: always for the full protocol, for the small one exactly when limited or with at least 14 body keys |
| KeycodeMas.LimitedIff | nexus/src/nexus_keycode_mas.c:87-116 | entry is limited exactly when the bucket has a size and holds no whole attempt |
| KeycodeMas.FramesEntered | nexus/src/nexus_keycode_mas.c:357-409 | from every state that is not limited, the frames of a start key, a body and an end are the body itself if it has 1 to 30 keys, and none otherwise; in the small protocol the first 14 keys of it once there are 14 |
| KeycodeMas.FrameOfCompleteCode | nexus/src/nexus_keycode_mas.c:426-474 | a whole code hands over its body, at most 14 keys of it in the small protocol, and nothing if it is empty or longer than 30 keys in the full one |
| KeycodeMas.PushedKeys | nexus/src/nexus_keycode_mas.c:257-267 | the frame holds the keys entered, in order, as far as there is room, and says if there was none left |
| KeycodeMas.LimitedTakesNothing | nexus/src/nexus_keycode_mas.c:357-474 | a limited device is given nothing and keeps its state, either way |
| KeycodeMas.RejectedIff | nexus/src/nexus_keycode_mas.c:357-409 | a key is rejected exactly on a limited device and, but for the start key, outside a frame |
| KeycodeMas.EntryTimesOutIff | nexus/src/nexus_keycode_mas.c:328-355 | entry stays open exactly when the first process() behind a key ran at uptime UINT32_MAX or at most the timeout has passed since, also across a wrap of the uptime; otherwise the frame is dropped |
| KeycodeMas.NotTimedAtTop | nexus/src/nexus_keycode_mas.c:328-355 | a first process() at uptime UINT32_MAX: entry is still open 2^31 seconds later |
| KeycodeMas.NextBucket | nexus/src/nexus_keycode_mas.c:56-130 | a finished frame costs exactly one attempt; time fills the bucket up to its cap; a power cycle sets it to what the stored grace codes are worth |
| KeycodeMas.AttemptsArePaidFor | nexus/src/nexus_keycode_mas.c:56-287 | over every run of keys, codes, time and power cycles: the frames finished, but for those a power cycle forgot before process() ran, times the refill time, plus what is left, never exceed what was there plus the time passed; and the bucket never exceeds its cap or its start |
| KeycodeMas.NothingForgotten | nexus/src/nexus_keycode_mas.c:238-249 | no frame is forgotten when every power cycle comes right after a process() |
| KeycodeMas.PowerUpMeaning | nexus/src/nexus_keycode_mas.c:214-231 | after power-up no frame is open, so every key but the start key is rejected, and the bucket holds what the stored grace codes, or the initial count, are worth |
| KeycodeMas.PowerCycleIsWorth | nexus/src/nexus_keycode_mas.c:214-231 | a power cycle raises the bucket exactly when the stored grace codes are worth more than it holds |
| KeycodeMas.PowerUpWithinCapIff | nexus/src/nexus_keycode_mas.c:214-231 | the bucket after power-up is within the cap exactly when the stored grace count is at most the bucket size |
| KeycodeMas.PowerCycleAfterProcess | nexus/src/nexus_keycode_mas.c:238-249 | a power cycle right after process() never raises the bucket |
| KeycodeAssembler.Assembler.AddTime | nexus/src/nexus_keycode_mas.c:56-85 | adding time with the overflow test equals capped addition |
| KeycodeAssembler.Assembler.AttemptsRemaining | nexus/src/nexus_keycode_mas.c:101-116 | repeated subtraction counts the whole attempts in the bucket |
| KeycodeAssembler.Assembler.RemainingGraceperiodKeycodes | nexus/src/nexus_keycode_mas.c:151-173 | the count with the division avoided is the specified one |
| KeycodeAssembler.Assembler.Push | nexus/src/nexus_keycode_mas.c:257-267 | a key is stored up to 30 keys; beyond, the frame is marked too long |
| KeycodeAssembler.Assembler.Finish | nexus/src/nexus_keycode_mas.c:269-287 | the handler is given the frame unless it is empty or too long; an attempt is deducted; assembly starts over |
| KeycodeAssembler.Assembler.BookendPush | nexus/src/nexus_keycode_mas.c:357-409 | one key in place |
| KeycodeAssembler.Assembler.HandleCompleteKeycode | nexus/src/nexus_keycode_mas.c:426-474 | a whole code in place, for every length given with it, 0 included |
| KeycodeAssembler.Assembler.BookendProcess | nexus/src/nexus_keycode_mas.c:328-355 | the entry timeout on 32-bit uptime |
| KeycodeAssembler.Assembler.Process | nexus/src/nexus_keycode_mas.c:238-249 | time, stored grace count and timeout in place |
| KeycodeExtended.Bitstream.PullBit | nexus/src/nexus_util.c:143-156 | the next bit, most significant first |
| KeycodeExtended.Bitstream.PullUint8 | nexus/src/nexus_util.c:158-171 | up to eight bits as a number |
| KeycodeExtended.Bitstream.PullUint16Be | nexus/src/nexus_util.c:173-190 | up to sixteen bits, taken as bytes from the most significant one, as a number |
| KeycodeExtended.Parse | nexus/src/nexus_keycode_pro_extended.c:19-63 | the stream is consumed and gives the fields of a type 0 message; other types are refused |
| KeycodeExtended.ParseInjective | nexus/src/nexus_keycode_pro_extended.c:19-63 | codes that parse to the same message agree on all 25 bits |
| KeycodeExtended.ParsedMeaning | nexus/src/nexus_keycode_pro_extended.c:19-63 | a code parses to a message exactly when its bits are three zeros, two bits of the message id, eight of the increment id and twelve of the MAC, each with the top bit first |
| KeycodeExtended.BitsOfByte | nexus/src/nexus_util.c:143-156 | the bits of a byte in the stream are its binary digits from the top one down |
| KeycodeExtended.AuthenticMeaning | nexus/src/nexus_keycode_pro_extended.c:65-137 | a code is right for a message id exactly when it has its two low bits and the MAC of seven bytes: the id, the type, the increment id and the truncated id |
| KeycodeExtended.LayoutTellsApart | nexus/src/nexus_keycode_pro_extended.c:82-125 | those bytes determine message id and increment id |
| KeycodeExtended.SetFlagMeaning | nexus/src/nexus_keycode_pro.c:1798-1821 | setting a flag uses up that id, or the center for an id below the window, and what falls below the window, and nothing else |
| KeycodeExtended.MaskBelowMeaning | nexus/src/nexus_keycode_pro.c:1826-1865 | masking below an id uses up exactly the ids below it besides those used before, nothing for an id below the window, and the whole window for its lowest id; the center never decreases |
| KeycodeExtended.UpdateWindow | nexus/src/nexus_keycode_pro.c:1705-1751 | the window moves up to a larger id, and the flag index is that of an id in the window or the center |
| KeycodeExtended.MaskBelowMessageId | nexus/src/nexus_keycode_pro.c:1823-1865 | masking in place for every argument, 0 and ids below the window included |
| KeycodeExtended.ApplyMessage | nexus/src/nexus_keycode_pro_extended.c:143-243 | inferring and masking in place, with the 16-bit id that is passed on |
| KeycodeExtended.AppliedIsUsedUpIff | nexus/src/nexus_keycode_pro_extended.c:198-243 | an applied id was unused; below 65535 exactly it, the ids below it and those used before are used up afterwards, and from 65535 on nothing changes |
| KeycodeExtended.TopIdAppliesAgain | nexus/src/nexus_keycode_pro_extended.c:198-243 | a code with id 65535 and a window that is the same after the code is applied |
| KeycodeExtended.AppliedIdsIncrease | nexus/src/nexus_keycode_pro_extended.c:198-243 | over every run of extended codes among codes that set, mask or wipe ids: with no wipe between, an extended code applied later has a larger id than any applied before it with an id below 65535 |
| KeycodeExtended.WipeForgets | nexus/src/nexus_keycode_pro.c:808-829 | after a wipe exactly the ids up to 63 can be used, whatever was applied before |
| KconfigExpr.EvalFrame | nexus/Kconfiglib/kconfiglib.py:5988-6056 | the value of an expression, relations between symbols and with string or number literals included, depends only on the symbols its short-circuit evaluation looked at |
| KconfigMeaning.EvalMeaning | nexus/Kconfiglib/kconfiglib.py:5988-6056 | the value of an expression is at least t for the reasons its operators name, whatever the order of evaluation: both, either, not above, and the order of numbers or texts |
| KconfigMeaning.VisibilityMeaning | nexus/Kconfiglib/kconfiglib.py:6286-6313 | the visibility is at least t exactly when some prompt allows it, or allows m and the symbol is bool |
| KconfigMeaning.TriMeaning | nexus/Kconfiglib/kconfiglib.py:4428-4505 | a symbol has exactly the value that selects, the visible user value or else the first default that applies and implies give it, with m promoted for bool symbols and under an imply of y |
| KconfigMeaning.SolutionMeaning | nexus/Kconfiglib/kconfiglib.py:4428-4505 | so full recomputation gives every symbol that value among the values of all |
| KconfigMeaning.SelectsAndTypesHold | nexus/Kconfiglib/kconfiglib.py:4478-4492 | in every solution no symbol is below what selects it, and no bool symbol is m |
| KconfigMeaning.UserValueHolds | nexus/Kconfiglib/kconfiglib.py:4452-4454 | in every solution a visible symbol that nothing selects has the value of the user cut down to its visibility, promoted if it must be |
| KconfigMeaning.DefaultHolds | nexus/Kconfiglib/kconfiglib.py:4456-4477 | in every solution a symbol that nothing selects and no visible user value sets has the first default that applies, raised by imply only while its dependencies are met, promoted if it must be |
| KconfigMeaning.MentionsMeaning | nexus/Kconfiglib/kconfiglib.py:3466-3513 | an expression mentions exactly the symbols that renaming would change |
| KconfigMeaning.DependsOnMeaning | nexus/Kconfiglib/kconfiglib.py:3466-3513 | a symbol depends on exactly the symbols its prompts, defaults, selects, implies and dependencies mention |
| KconfigCache.RecomputeSolves | nexus/Kconfiglib/kconfiglib.py:4428-4505 | on a graph without dependency loops full recomputation satisfies the equation of every symbol |
| KconfigCache.SolutionIsUnique | nexus/Kconfiglib/kconfiglib.py:4428-4505 | and nothing else does, so the value a read should return is well defined |
| KconfigCache.KeepingIsConsistent | nexus/Kconfiglib/kconfiglib.py:4428-4505 | a freshly computed value may be cached |
| KconfigCache.PrunedInvalidationIsSound | nexus/Kconfiglib/kconfiglib.py:4865-4894 | stopping the invalidation at symbols without a cached visibility is sound: what stays cached is the recomputed value under the changed user value |
| KconfigStore.Kconfig.BuildDep | nexus/Kconfiglib/kconfiglib.py:3466-3513 | the dependents of every symbol are exactly the symbols whose properties mention it |
| KconfigStore.Kconfig.CompareValues | nexus/Kconfiglib/kconfiglib.py:6030-6056 | a relation compares numbers when both sides are numbers and strings otherwise, on values that are the recomputed ones |
| KconfigStore.Kconfig.VisibilityOf | nexus/Kconfiglib/kconfiglib.py:6286-6313 | the largest value any prompt has, with m raised to y for a symbol that is bool at the moment, is the recomputed visibility |
| KconfigStore.Kconfig.Visibility | nexus/Kconfiglib/kconfiglib.py:4517-4523 | the visibility read is the recomputed one, whether it was cached or not |
| KconfigStore.Kconfig.TriValue | nexus/Kconfiglib/kconfiglib.py:4428-4505 | the value read or computed is the recomputed one, and nothing cached is forgotten |
| KconfigStore.Kconfig.Read | nexus/Kconfiglib/kconfiglib.py:4428-4505 | at any time, after any reads and changes, a read returns the full recomputation, which is the value TriMeaning says, and keeps the cache right |
| KconfigStore.Kconfig.ReadVisibility | nexus/Kconfiglib/kconfiglib.py:4517-4523 | at any time a read of the visibility returns what the prompts and the type give |
| KconfigStore.Kconfig.RecInvalidate | nexus/Kconfiglib/kconfiglib.py:4865-4894 | the pruned recursion ends and drops a set closed under dependents that hold anything; MODULES drops everything |
| KconfigStore.Kconfig.SetValue | nexus/Kconfiglib/kconfiglib.py:4558-4645 | a user value is taken or refused, and every cached value is right for the new user values |
| KconfigStore.Kconfig.UnsetValue | nexus/Kconfiglib/kconfiglib.py:4647-4654 | removing a user value leaves every cached value right |
| KconfigParse.Parser.ParseExpr | nexus/Kconfiglib/kconfiglib.py:3376-3415 | the recursive descent with a token cursor parses what ExprFrom specifies, and stops behind it or raises |
| KconfigParse.Parser.ParseAndExpr | nexus/Kconfiglib/kconfiglib.py:3417-3424 | the same for chains of AND |
| KconfigParse.Parser.ParseFactor | nexus/Kconfiglib/kconfiglib.py:3426-3460 | the same for symbols, relations, negation and parentheses |
| KconfigParse.PrintParses | nexus/Kconfiglib/kconfiglib.py:6060-6101 | parsing what was printed consumes exactly that, whatever may follow, and gives the right-nested expression |
| KconfigParse.PrintThenParse | nexus/Kconfiglib/kconfiglib.py:6060-6101 | printing then parsing consumes every token and keeps the value under every assignment; the same expression comes back exactly when its AND and OR chains are right-nested |
| KconfigParse.ParsesAsDerived | nexus/Kconfiglib/kconfiglib.py:3376-3460 | a token sequence parses as a whole exactly when the grammar derives it, and as that expression: so precedence and nesting are those of the grammar and no sequence has two readings |
| KconfigLoops.LoopCheck.CheckDepLoopSym | nexus/Kconfiglib/kconfiglib.py:6559-6631 | the three-colour search colours in finishing order, returns a chain on the way back, and raises only genuine loops |
| KconfigLoops.LoopCheck.FoundDepLoop | nexus/Kconfiglib/kconfiglib.py:6668-6680 | the tuple grows on the way back and is raised where the loop closes |
| KconfigLoops.LoopCheck.CheckAll | nexus/Kconfiglib/kconfiglib.py:1118-1120 | an error is raised exactly when the dependents graph has a loop, and the reported tuple is one |
| KconfigLoops.FinishedHasNoLoop | nexus/Kconfiglib/kconfiglib.py:6559-6631 | a finishing order in which dependents come first rules out every loop |
| KconfigLoad.LoadedGraphIsAcyclicIff | nexus/Kconfiglib/kconfiglib.py:1115-1120 | a configuration that loads without a reported loop has an order of evaluation, which the cache theorems need, exactly when MODULES is no tristate symbol and needs none through its dependencies |
| KconfigLoad.ModulesLoopIsNotReported | nexus/Kconfiglib/kconfiglib.py:1115-1120 | MODULES, a bool symbol, defaulting to a tristate one that defaults to m: it loads with no loop for the check to report, and no order of evaluation exists |
| KconfigLoad.ModulesReadsNeverEnd | nexus/Kconfiglib/kconfiglib.py:4428-4505 | in that configuration a read of either symbol never ends, whatever the user sets: each value needs the other in every state |
| KconfigLoad.OrderedReadsEnd | nexus/Kconfiglib/kconfiglib.py:4428-4505 | with an order of evaluation every read ends, nested no deeper than the rank of the symbol |
| KconfigEscape.EscapeIsOnePass | nexus/Kconfiglib/kconfiglib.py:6176-6183 | the two replacements in this order escape every backslash and quote once |
| KconfigEscape.MatchedIff | nexus/Kconfiglib/kconfiglib.py:7158-7160 | the pattern matches exactly one group: the body between the quotes |
| KconfigEscape.QuotedReadsBack | nexus/Kconfiglib/kconfiglib.py:1313-1322 | every string comes back from its quoted form, whatever follows the closing quote |
| KconfigEscape.EscapedReadsBack | nexus/Kconfiglib/kconfiglib.py:6186-6194 | however a string was escaped, with more backslashes than needed or not, it is read back |
| KconfigEscape.BodyIsEscaped | nexus/Kconfiglib/kconfiglib.py:6186-6194 | every text the pattern takes is one way to escape the string it is read as |
| KconfigEscape.RewritesIff | nexus/Kconfiglib/kconfiglib.py:6186-6194 | reading a body and writing it again changes nothing exactly when only backslashes and quotes were escaped |

## Left out

- Cbor: indefinite-length items are read as errors, 64-bit sizes are taken as sizes of memory, and the nested
  container encoders of tinycbor are one output cursor.
- SipHash, the pseudorandom digits and random salts: parameters of every theorem; `NoCollisions` names the
  only place where a theorem needs different inputs of the run to have different check values.
- Secured-method lookup in the security manager: a flag of the message.
- Sending nonce-sync messages, the CoAP and OCF stack, endpoint conversion and response building: messages
  arrive decoded, replies are values.
- NV driver failures and block checksums: a block reads as written, or as nothing.
- Products' feedback, credit and event functions: results of the methods.
- The packing of window flags into bytes: flag k is element k of an array.
- What the core does with an origin command, unlock and unlink included: whether it takes the command is a
  parameter.
- Controllers' first POST of a handshake goes out with the retry timer, as in the source; the network stack's
  own repetition is the network of the model.
- After a search for a handshake index that never ends the accessory of the model takes further events as it stands;
  the device would have to be restarted first, which is one of these events.
- Unknown command types, which only debug builds assert against, are rejected as in other builds.
- Ordinary keycodes of the full and small protocol: credit and factory codes appear in `KeycodeExtended` only as
  setting a flag, masking below an id, or wiping the received ids.
- Rate limiting switched off (bucket size 0) has no conservation law; paths and bounds cover it.
- KconfigCache: choices, string, int and hex symbols, `assignable`, warnings and writing files; a relation
  compares bool and tristate symbols, constants, and literals with a text and perhaps a number.
- KconfigParse: tokenising text, and the rewriting of m to m && MODULES.
- KconfigLoops: choices, whose extra edges make intended cycles, and the text of the error message.
- KconfigEscape: a newline in a value splits the line of a `.config` file; the round trip is about the text
  of one assignment.
- Command-line tools and menus of Kconfiglib, file reading and macro expansion: user interface and I/O.
