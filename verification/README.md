# Sig-Net in Dafny

A model of the Sig-Net protocol stack and proofs about it: the freshness
protocol that keeps replayed packets out, the wire codec from option headers to
signed packets, and the node that applies what arrives. The three meet in
`NodeReceive`: a datagram is extracted, addressed, authenticated, checked for
freshness, and only then applied to the node's parameters. `SenderToNode` follows
polls, levels and commands from the sender's arguments to the node's store, and
`NodeToManager` follows the node's replies back.

`dafny verify dfyconfig.toml` checks the whole project.

## What is modelled

**Freshness** (`TrackTable`, `Freshness`, `FreshnessRuns`, `FreshnessIdeal`,
`FreshnessExact`, `FreshnessAgreement`, `FreshnessEviction`, `FreshnessLimits`,
`Sender`, `Network`). The receiver's two 32-slot tables with linear lookup,
first-free allocation and eviction at an hour's age in wrapping 32-bit time are a
class over arrays, proved against a function on values. Runs are sequences of arrivals at true times, of which the
receiver sees the low 32 bits. Main results: accepted pairs of a Sender-ID
strictly increase, so nothing is accepted twice, while it is never silent for an
hour; with at most 32 Sender-IDs the tables decide like two unbounded maps; both
limits are tight; only the oldest mark or floor is ever given up; and for every
run it is stated exactly when a stale packet gets in and exactly when the tables
decide unlike the maps. `Network` covers every run of senders and a network that
loses, duplicates and reorders. The two rollover rules differ: the node never sends sequence number
0xFFFFFFFF, the application does.

**Codec** (`Bytes`, `PacketIO`, `CoapOption`, `CoapWalk`, `Text`, `UriPath`,
`Lanes`, `LaneRules`, `TlvStream`, `SigNetOptions`, `PacketHead`, `SignedPacket`,
`Receive`, `Extraction`). Encoders and parsers are methods on a bounded buffer and a cursor,
each tied to a function of the bytes. HMAC-SHA256 (RFC 2104) is an arbitrary
function of key and message. The three option walkers are proved against one
walk on every byte string, so the agreement needs no precondition on reserved
nibbles. Main results: option lists (section 3.1 of RFC 7252) and TLV streams
round-trip, every built packet is extracted and verified as it was sent, its
size has a closed form, extraction is exact on every byte string, and the URI
lanes, which are found by substring search, are right exactly for the scopes named
in `Lanes`.

**Node** (`Tids`, `NodeProfile`, `NodeStore`, `NodeDefaults`, `NodeBlocks`,
`NodeTransaction`, `NodeRuns`, `PollReply`, `ReplyTiers`, `LostMode`,
`SecurityEvents`, `NodeReceive`, `SenderToNode`, `NodeAnswers`, `NodeToManager`,
`FirmwareLimit`). The form's protocol fields are a class; what the user interface
shows is a parameter, and whether a sent reply gets out is left
open at every attempt, which is logged with the counters it carries. Main
results: exactly the admissible and correctly signed packets get past screening,
and nothing else is ever applied; each parameter holds the last value written to
it; CHANGE_COUNT counts
exactly the packets with a persistent change and no refused SET, so an unchanged
count means unchanged persistent parameters if and only if none is changed at the
node itself or in a packet with a refused SET; the store stays valid; the
poll-reply loop ends at the greatest level that fits, with one exact exception;
Lost Mode is entered, announced and left at the right times; a replay changes no
parameter, with one exact exception; polls, levels and commands mean to the node
what their senders put into them; each built poll, GET and SET gets exactly the
replies it should, from the right endpoint; and replies say to the manager what
the node holds.

**Passphrases** (`Passphrase`). The generator, for arbitrary random bytes.

## Where code and description differ

The model follows the code.

- The comment at `sig-net-node/sig-net-node-main-form.cpp:2228-2231` says that an
  invalid SET voids the entire transaction: no confirmation reply is sent and
  CHANGE_COUNT is left unchanged; otherwise the count is incremented once if any
  persistent parameter changed, and the confirmation is sent. The code does
  that (`NodeBlocks.CommitsMeans`, `NodeBlocks.CountMeans`) and no more: SETs of a
  voided transaction that were already applied stay applied, and later
  valid ones are still applied (`NodeBlocks.VoidedPacketIsHarmless`,
  `SenderToNode.VoidedCommandLeavesItsMark`).
- `sig-net-node-data.hpp:68` says that the count is incremented when persistent
  configuration changes. It is not when the change is made at the node
  (`NodeRuns.LocalChangeIsNotCounted`) or in a voided transaction; these are the
  only two ways (`NodeRuns.SlipsMeans`, `NodeRuns.CountTellsExactly`).
- `sig-net-tlv.hpp:179-180` limits the text of a firmware version to 64 bytes. The
  encoder does, and the validation of a SET does not, so one ordinary command
  leaves a node that answers no full or extended poll of its root endpoint; its
  loop gives up instead of trying a lower level (`PollReply.SettlesOnGreatestFit`,
  `FirmwareLimit.LongVersionSilencesNode`).
- The comment at `sig-net-node-data.cpp:481-484` has the full tier report all network
  parameters and adds the refresh capability there. No tier reports a network
  parameter, the refresh capability is already in the configuration tier, and the
  endpoint capability, which is too, comes a second time
  (`ReplyTiers.TiersAreExact`, `ReplyTiers.DataIsCovered`).
- The comments at `sig-net-crypto.cpp:649-653` say that the generator's fallback
  should never be needed. It is, whenever a draw holds a sequential run
  (`Passphrase.FallbackIsReachable`).
- The repository's own README.md (lines 230-231) promises that receivers reject
  replayed packets. What they accept from a sender moves forward if and only if
  no packet that is not newer than the last accepted one meets a tracker that has
  lost that sender's mark and has room for it
  (`FreshnessExact.StaleIsAcceptedExactly`, `FreshnessExact.ProtectionIsExact`,
  `NodeReceive.ReplayIsHarmless`). `FreshnessLimits.ReplayAfterAnHour` shows that
  this happens; it does not while the sender is heard at least once an hour or at
  most 32 Sender-IDs are in play.
- The comment at `sig-net-node/sig-net-node-main-form.cpp:1126-1128` limits
  security events to one packet per second and code. A packet sent at clock
  reading 0 does not hold back the next (`SecurityEvents.ReadingZeroDoesNotHold`);
  all others do (`SecurityEvents.LimiterIsExact`).

## Model

| member | source | states |
|---|---|---|
| TrackTable.FindTrack | sig-net-node-udp-listen.hpp:310-330 | The lookup loop of both tables returns the first slot in use for the key, or -1; stated generically, since the two loops differ only in key and array. |
| TrackTable.Acquire | sig-net-node-udp-listen.hpp:332-374 | A full table gives up only the slot of greatest age, the first of them, and only at 3,600,000 ms by the wrapping clock; with none of that age there is no slot; with a free one the first of those is taken. |
| TrackTable.AcquireSlot | sig-net-node-udp-listen.hpp:332-374 | The allocation loop of both tables ends with that slot. A slot seen this very millisecond (age 0) is never chosen. |
| TrackTable.PutIsFound | sig-net-node-udp-listen.hpp:332-374 | A key written where lookup or allocation put it is found there, and no key is ever held twice. |
| TrackTable.PutSparesRecent | sig-net-node-udp-listen.hpp:332-374 | Writing one key never displaces another written less than an hour of true time before: wrapped age never exceeds true age. |
| TrackTable.ModularAge | sig-net-node-udp-listen.hpp:340-345 | The 32-bit age of a timestamp never exceeds its true age and is exact below 2^32 ms. |
| TrackTable.Pigeonhole | sig-net-node-udp-listen.hpp:332-374 | A full table of distinct keys holds as many keys as it has slots. |
| TrackTable.RoomForNewKey | sig-net-node-udp-listen.hpp:332-374 | While at most as many keys as slots are in play, a key not held finds a free slot: no eviction. |
| Freshness.FreshnessTracker.ValidateAndCommit | sig-net-node-udp-listen.hpp:376-425 | Verdict and both tables after one packet, including the session slot a packet claims (floor 0, old timestamp) before it is refused by its mark. |
| FreshnessRuns.DeliverKeepsWellFormed | sig-net-node-udp-listen.hpp:376-425 | Every packet keeps both tables at 32 slots with no TUID and no Sender-ID held twice. |
| FreshnessRuns.RejectionKeepsMarks | sig-net-node-udp-listen.hpp:387-413 | A refused packet changes no sequence track. |
| FreshnessRuns.AcceptedIsHeld | sig-net-node-udp-listen.hpp:417-424 | After an accept both tables hold the packet's session and mark, stamped now. |
| FreshnessRuns.OtherMarkIsKept | sig-net-node-udp-listen.hpp:354-374 | A packet never displaces another Sender-ID's mark written less than an hour of true time before. |
| FreshnessRuns.OtherFloorIsKept | sig-net-node-udp-listen.hpp:332-352 | The same for another TUID's session floor. |
| FreshnessRuns.RunInvariant | sig-net-node-udp-listen.hpp:376-425 | Over every run the tables stay well formed and hold the last accepted mark and session of every sender accepted within the hour. |
| FreshnessRuns.SuccessiveAcceptsIncrease | sig-net-node-udp-listen.hpp:405-413 | Two successive accepts from a Sender-ID less than an hour of true time apart increase lexicographically, through eviction and clock wrap. |
| FreshnessRuns.SessionsNeverDecrease | sig-net-node-udp-listen.hpp:387-391 | Successive accepts from a TUID, at any of its endpoints, less than an hour apart never go back a session. |
| FreshnessRuns.AcceptsStrictlyIncrease | sig-net-node-udp-listen.hpp:354-425 | While a Sender-ID is never silent for an hour, all its accepted pairs strictly increase. |
| FreshnessRuns.NoPacketAcceptedTwice | sig-net-node-udp-listen.hpp:354-425 | So no packet is accepted twice, whatever is duplicated, reordered or replayed. |
| FreshnessIdeal.StepRefines | sig-net-node-udp-listen.hpp:310-425 | One packet from at most 32 Sender-IDs: the bounded tables and two unbounded maps give the same verdict, nothing is evicted, a refusal leaves no trace. |
| FreshnessIdeal.TrackerRefinesIdeal | sig-net-node-udp-listen.hpp:310-425 | The same over every run, whatever the clock does. |
| FreshnessIdeal.IdealTakesInOrder | sig-net-node-udp-listen.hpp:376-425 | The unbounded tracker accepts every packet of runs in which each TUID's marks increase. |
| FreshnessIdeal.InOrderIsAccepted | sig-net-node-udp-listen.hpp:376-425 | So the bounded tracker, started empty, accepts them all with at most 32 Sender-IDs. |
| FreshnessIdeal.FewSendersStrictlyIncrease | sig-net-node-udp-listen.hpp:310-425 | With at most 32 Sender-IDs accepted pairs strictly increase and sessions of a TUID never go back, however long anyone is silent and however the clock wraps. |
| FreshnessExact.MarkIsLast | sig-net-node-udp-listen.hpp:398-424 | Over every run a mark the tracker holds is that of the sender's last accepted packet, however old: marks are lost, never wrong. |
| FreshnessExact.StaleIsAcceptedExactly | sig-net-node-udp-listen.hpp:376-425 | A packet not newer than its sender's last accepted one is accepted if and only if the tracker has lost that mark, finds a slot for a new one, and its session floor admits the packet or a floor slot can be claimed. |
| FreshnessExact.ProtectionIsExact | sig-net-node-udp-listen.hpp:376-425 | For every run, accepted pairs strictly increase for every sender if and only if no stale packet meets a tracker in that state. |
| FreshnessAgreement.VerdictsAgree | sig-net-node-udp-listen.hpp:310-425 | One packet: bounded tables that recall nothing the unbounded maps do not give their verdict if and only if a new packet finds or gets its slots, and a stale one finds no room or some trace of what makes it stale. |
| FreshnessAgreement.StepRecalls | sig-net-node-udp-listen.hpp:387-424 | While the verdicts agree, every mark found is the map's and every floor found is the map's or the 0 of a refused packet's claim. |
| FreshnessAgreement.RefinementIsExact | sig-net-node-udp-listen.hpp:310-425 | For every run, with no condition on time or population: the bounded tracker gives the verdicts of the unbounded maps throughout if and only if every packet meets tables in that state. |
| FreshnessLimits.ThirtyThirdSenderIsRefused | sig-net-node-udp-listen.hpp:332-352 | The bound is tight: a 33rd sender's first packet is refused. |
| FreshnessLimits.IdealTakesThirtyThird | sig-net-node-udp-listen.hpp:332-352 | The unbounded tracker accepts that packet, so refinement fails exactly there. |
| FreshnessLimits.ReplayAfterAnHour | sig-net-node-udp-listen.hpp:348-352 | The hour is tight: after an hour of silence in a full table a newcomer is accepted and evicts a sender, whose packet, accepted at time 0, is then accepted a second time. |
| FreshnessLimits.RefusalLeavesClaim | sig-net-node-udp-listen.hpp:387-410 | A refused packet changes the tracker exactly when its TUID was unknown, a session slot could be claimed and its mark was stale or found no slot; that slot then holds the TUID with floor 0 under its old timestamp, and nothing else changes. |
| FreshnessEviction.MarkIsStamped | sig-net-node-udp-listen.hpp:398-424 | Over every run a mark the tracker holds carries the pair and the time of its sender's last accepted packet. |
| FreshnessEviction.EvictedMarkIsOldest | sig-net-node-udp-listen.hpp:355-374 | Over every run a mark is given up only for another sender's accepted packet, when all 32 are held, at least an hour after its sender's last accepted packet, and only if no mark held is of an earlier one less than a clock turn back. |
| FreshnessEviction.EvictedFloorIsOldest | sig-net-node-udp-listen.hpp:332-352 | Over every run a floor is given up only for another TUID, when all 32 are held, at least an hour after the last accepted packet recorded in its slot, and only if none recorded in another slot is earlier, less than a clock turn back. |
| Sender.AdvanceMovesForward | sig-net-send.hpp:225-235 | Advancing the counter moves it forward, under the node's and the application's rollover rule, exactly outside the listed end points. |
| Sender.NthClosedForm | sig-net-node/sig-net-node-main-form.cpp:1214-1221 | The k-th packet of a sender carries session start + k / period and sequence 1 + k mod period, the period being 2^32-2 for the node and 2^32-1 for the application. |
| Sender.NthIncreases | sig-net-example-imgui/app.cpp:801-814 | Until the session wraps, pairs increase with every packet, and only then. |
| Sender.WrapGoesBack | sig-net-node/sig-net-node-main-form.cpp:1218-1221 | When the session number wraps the counter goes back to (0, 1): the limit above is exact. |
| Sender.LossyInOrderIsAccepted | sig-net-node-udp-listen.hpp:376-425 | Every in-order lossy interleaving of senders that share a counter across endpoints is accepted whole from an empty tracker, until a session wraps or more than 32 Sender-IDs take part. |
| Network.RunIsConsistent | sig-net-node-udp-listen.hpp:376-425 | For every run of sending, dropping, duplicating, reordering, receiving and waiting, the tracker is what the arrivals make it and everything in transit was sent. |
| Network.AcceptedInSendingOrder | sig-net-node-udp-listen.hpp:376-425 | In every such run the packets accepted from a Sender-ID that keeps talking are accepted in sending order, each at most once. |
| Network.ArrivedWasSent | sig-net-node-udp-listen.hpp:376-425 | Nothing arrives, let alone is accepted, that was not sent. |
| PacketIO.PacketBuffer.WriteByte | sig-net-types.hpp:315-322 | Appends one byte or reports BufferFull, at 1400 bytes. |
| PacketIO.PacketBuffer.WriteBytes | sig-net-types.hpp:324-332 | Appends a block whole or not at all. |
| PacketIO.PacketBuffer.WriteUInt16 | sig-net-types.hpp:334-342 | Appends the two big-endian bytes or nothing. |
| PacketIO.PacketBuffer.Reset | sig-net-types.hpp:284-288 | Empties the buffer. |
| PacketIO.WroteBoth | sig-net-types.hpp:310-342 | Two writes of which the second is skipped after a failure are one write of both: the algebra of every early-return chain. |
| PacketIO.PacketReader.ReadByte | sig-net-parse.cpp:54-60 | Reads and advances, or fails without moving. |
| PacketIO.PacketReader.ReadUInt16 | sig-net-parse.cpp:62-70 | Reads a big-endian number and advances, or fails without moving. |
| PacketIO.PacketReader.Skip | sig-net-parse.cpp:94-100 | Advances within the data or not at all. |
| PacketIO.PacketReader.PeekByte | sig-net-parse.cpp:102-108 | Reads without moving. |
| CoapOption.HeaderByte | sig-net-coap.cpp:150-185 | No option header byte is the payload marker 0xFF, for any delta and length. |
| CoapOption.EncodeCoAPOption | sig-net-coap.cpp:143-232 | Writes header, extensions and value of an option, or BufferFull; refuses a number below the previous one and then writes nothing. |
| CoapOption.ParseCoAPOption | sig-net-parse.cpp:150-233 | Reads one option, or stops on a marker, a reserved nibble or the end; all arithmetic wraps at 16 bits; says where the cursor is left. |
| CoapOption.OptionRoundTrip | sig-net-parse.cpp:150-233 | Every encoded option (section 3.1 of RFC 7252) reads back as its number and value, wherever it stands. |
| CoapOption.ReencodesExactly | sig-net-parse.cpp:176-205 | Conversely, what was parsed re-encodes to the very bytes it was parsed from exactly when neither extended field wrapped at 16 bits. |
| CoapWalk.DecodeCoapNibble | sig-net-coap.cpp:360-396 | Decodes a nibble with its extension by index, as both index-based walkers do. |
| CoapWalk.FindCoapOptionAndPayload | sig-net-coap.cpp:398-452 | Agrees with the common walk on every byte string, reserved nibbles included: last occurrence of the option, its length, the payload offset, and failure. |
| CoapWalk.LocatePayloadOffset | sig-net-example-imgui/app.cpp:337-378 | The application's walker agrees with the same walk on the payload offset and on failure. |
| CoapWalk.OptionListRoundTrip | sig-net-coap.cpp:143-232 | Any ascending option list followed by 0xFF is read back as that list, stopping at the marker. |
| CoapWalk.EncodeAppend | sig-net-coap.cpp:143-232 | Encoding two lists in a row is encoding their concatenation. |
| Text.DecimalRoundTrip | sig-net-coap.cpp:336-350 | A number printed in decimal is read back as itself. |
| Text.TuidToHexString | sig-net-crypto.cpp:303-317 | Prints two upper-case digits per byte. |
| Text.ParseHexToken | sig-net-parse.cpp:555-569 | Decodes a token two digits at a time, and rejects it exactly when some character is no hexadecimal digit. |
| Text.ParseHexBytes | sig-net-parse.cpp:543-570 | Trims the text, drops an 0x prefix and reads exactly the bytes that a token of the right length spells; each failure has its own status. |
| Text.TuidHexRoundTrip | sig-net-parse.cpp:577-580 | The text printed for a TUID, with or without an 0x prefix, normalises to a token that reads back as that TUID. |
| Text.PaddingIsTrimmed | sig-net-parse.cpp:481-545 | Spaces, tabs and line ends around a token are removed, then one 0x or 0X if asked for, and nothing else. |
| Text.HexIsInverse | sig-net-parse.cpp:543-570 | Bytes printed in hexadecimal are read back as themselves, for any number of bytes. |
| UriPath.SearchEnclosed | sig-net-node-udp-listen.hpp:184-190 | A fixed word between slashes is found in a path exactly when it is one of its segments other than the last, at the first such. |
| UriPath.SearchLeading | sig-net-node-udp-listen.hpp:180-182 | A word after a slash is found exactly when it begins a segment. |
| UriPath.PathIsCString | sig-net-parse.cpp:238-307 | A path holds no zero byte, so it survives being a C string. |
| Lanes.ParseUniverseFromURI | sig-net-node-udp-listen.hpp:88-119 | Returns the decimal number after the first "/level/" if it is 1 to 63999 and nothing follows it. |
| Lanes.TryParseTargetUriEndpoint | sig-net-node-udp-listen.hpp:201-234 | Returns the decimal number after the last slash of a node or manager URI if it has 16 bits. |
| Lanes.ValidPaths | sig-net-parse.cpp:641-681 | A path is accepted exactly when it is /sig-net/v1/{scope}/ and at least one more segment. |
| Lanes.LevelLane | sig-net-node-udp-listen.hpp:174-199 | A level packet is checked with the sender key, and its TID admitted, exactly when the scope does not begin with "poll" and is neither "manager" nor "node". |
| Lanes.UniverseRoundTrip | sig-net-node-udp-listen.hpp:88-119 | The universe of a level URI is recovered exactly when the scope is not "level". |
| Lanes.NodeLane | sig-net-node-udp-listen.hpp:174-199 | A node's packet is checked with the citizen key exactly when the scope neither begins with "poll" nor is "manager". |
| Lanes.EndpointRoundTrip | sig-net-node-udp-listen.hpp:201-234 | Every 16-bit endpoint is recovered from a node URI, whatever the scope. |
| Lanes.ManagerLane | sig-net-node-udp-listen.hpp:174-199 | A command is checked with the local manager key exactly when the scope does not begin with "poll". |
| Lanes.ManagerLaneTids | sig-net-node-udp-listen.hpp:253-260 | A command may carry every TID but the five of the data lanes, under the same condition. |
| Lanes.ManagerEndpointRoundTrip | sig-net-node-udp-listen.hpp:201-234 | Every 16-bit endpoint is recovered from a command's URI, whatever the scope. |
| Lanes.PollLane | sig-net-node-udp-listen.hpp:243-251 | A poll is checked with the global manager key and its TID admitted, whatever the scope. |
| Lanes.LanesCarryTheirOwn | sig-net-node-udp-listen.hpp:243-290 | Outside colliding scopes each lane admits exactly its own TIDs, and the node lane none. |
| LaneRules.KeysBySegments | sig-net-node-udp-listen.hpp:174-199 | For every path: the key follows from which of the fixed words some segment begins with or some inner segment is, in a fixed order of precedence. |
| LaneRules.TidsBySegments | sig-net-node-udp-listen.hpp:243-290 | For every path: the TIDs admitted follow from the same segments. |
| LaneRules.NamesInAnyCase | sig-net-node/sig-net-node-main-form.cpp:2036-2063 | A manager URI names a node exactly by its twelve hexadecimal digits, in any mixture of cases. |
| TlvStream.EncodeTLV | sig-net-tlv.cpp:42-73 | Writes type, length and value of a block, or reports BufferFull. |
| TlvStream.BuildPayload | sig-net-tlv.cpp:383-400 | Writes a list of blocks, or reports BufferFull exactly when the whole list does not fit. |
| TlvStream.EncodeTidPoll | sig-net-tlv.cpp:132-169 | Writes the 25-byte poll, or refuses a query level above 3. |
| TlvStream.EncodeTidPollReply | sig-net-tlv.cpp:174-200 | Writes the 12-byte poll reply. |
| TlvStream.SoemBytes | sig-net-tlv.cpp:132-200 | The combined product code is the manufacturer's two bytes followed by the variant's. |
| TlvStream.BuildStartupAnnouncePayload | sig-net-tlv.cpp:294-352 | Always succeeds, with the five announcement blocks in order. |
| TlvStream.ParseTLVBlock | sig-net-parse.cpp:436-457 | Reads one block or fails, leaving the cursor behind what could be read of the header. |
| TlvStream.TlvRoundTrip | sig-net-parse.cpp:436-457 | An encoded block reads back as itself, wherever it stands. |
| TlvStream.StreamRoundTrip | sig-net-tlv.cpp:383-400 | Any list of blocks reads back, block by block to the end of the data, as that list. |
| TlvStream.ParseAnnouncePayload | sig-net-example-imgui/app.cpp:380-450 | Succeeds exactly on well-formed payloads with a poll reply, and returns what all their blocks teach. |
| TlvStream.AnnounceRoundTrip | sig-net-example-imgui/app.cpp:380-450 | The start-up announcement yields exactly the TUID, product codes, change count, protocol version and roles announced. |
| TlvStream.LearnedIsLast | sig-net-example-imgui/app.cpp:380-450 | For an arbitrary list of blocks: it is refused exactly if a poll reply or firmware version in it is too short, and otherwise the last block of each says who the node is and what it runs. |
| TlvStream.PollLayout | sig-net-tlv.cpp:132-200 | Which bytes of a poll and of its reply carry which field, big-endian. |
| SigNetOptions.BuildSigNetOptionsWithoutHMAC | sig-net-security.cpp:42-132 | Writes the five options in order, or reports BufferFull. |
| SigNetOptions.ParseSigNetOptions | sig-net-parse.cpp:312-431 | The second reader-based walker, on the same common walk: succeeds exactly when the walk ends on a marker or reserved nibble and all six options were seen with their lengths, and returns their last values. |
| SigNetOptions.TakeSkipsPath | sig-net-parse.cpp:332-420 | Uri-Path options do not affect the six. |
| SigNetOptions.TakeWritten | sig-net-parse.cpp:332-431 | Reading the six options as written recovers every value. |
| SigNetOptions.SenderIdTells | sig-net-security.cpp:137-210 | A Sender-ID is the TUID and the big-endian endpoint, and tells both. |
| SigNetOptions.BuildHMACInput | sig-net-security.cpp:137-210 | Concatenates the signed fields, or fails exactly when they exceed the buffer. |
| SigNetOptions.HmacInputInjective | sig-net-security.cpp:137-210 | For URIs of one length, equal HMAC inputs have equal URI, mode, Sender-ID, manufacturer, session, sequence and payload. |
| SigNetOptions.HmacInputDetermines | sig-net-security.cpp:137-210 | For the mode the node verifies and URIs without zero bytes, the same without knowing the length: the first zero byte ends the URI. |
| PacketHead.HeaderFields | sig-net-types.hpp:60-75 | The three bit-field setters fix the whole header byte, whatever it held. |
| PacketHead.BuildCoAPHeader | sig-net-coap.cpp:97-120 | Writes the four header bytes, from an undefined first byte. |
| PacketHead.BuildURIPathOptions | sig-net-coap.cpp:245-320 | Writes the five path segments of a level URI as options. |
| PacketHead.BuildURIString | sig-net-coap.cpp:328-358 | Refuses a buffer under 96 bytes or a bad universe; otherwise always succeeds, with the URI that BuildURIPathOptions encodes, valid for the scope, from which the receiver reads the universe back unless the scope is "level". |
| PacketHead.BuildNodeURIPathOptions | sig-net-send.cpp:187-287 | Writes a node's path as options and as text, the same path both times; an empty text buffer and one that is too short are told apart, and then nothing is written. |
| PacketHead.BuildPollURIPathOptions | sig-net-send.cpp:392-456 | The same for the poll path. |
| SignedPacket.CalculateAndEncodeHMAC | sig-net-security.cpp:215-270 | Signs the input and appends the HMAC option, or fails exactly when the input exceeds 1400 bytes or the packet does. |
| SignedPacket.FinalizePacketWithHMACAndPayload | sig-net-send.cpp:461-502 | Appends signature, marker and payload; an empty payload gets no marker. |
| SignedPacket.BuildDMXPacket | sig-net-send.cpp:507-580 | Refuses a bad universe or slot count; else leaves the signed packet, or BufferFull if too long. |
| SignedPacket.BuildPollPacket | sig-net-send.cpp:663-734 | The same for polls, whose options carry manufacturer code 0. |
| SignedPacket.BuildAnnouncePacket | sig-net-send.cpp:585-658 | The same for start-up announcements. |
| SignedPacket.PacketSize | sig-net-send.cpp:461-502 | A signed packet is exactly 70 bytes longer than its path and payload, plus one per segment over 12 bytes. |
| SignedPacket.DmxPacketFits | sig-net-send.cpp:507-580 | Every valid DMX packet is built, in exactly this size, at most 643 bytes; neither packet, HMAC nor URI buffer can overflow. |
| Receive.ExtractURIString | sig-net-parse.cpp:238-307 | The reader-based walker, a loop of ParseCoAPOption, visits the same options as the index-based ones: it rebuilds the URI from the common walk's path options, or fails exactly when it does not fit. |
| Receive.ExtractPayload | sig-net-node-udp-listen.hpp:121-172 | URI, options and payload of a packet, or failure, in terms of one walk over its options. |
| Extraction.TakeAllMeans | sig-net-parse.cpp:312-431 | Any list of options is taken exactly if each of the six has a right length wherever it occurs, and the last of each number counts. |
| Extraction.OptionsAreExact | sig-net-parse.cpp:312-431 | For every walk: parsing succeeds exactly if it ended at a marker or reserved nibble, all lengths are right, all six options are present, and there is a signature exactly in the signed mode; and then recovers the last value of each. |
| Extraction.UriIsExact | sig-net-parse.cpp:238-307 | For every walk and capacity: the URI is rebuilt exactly if it and its terminator fit and the data did not run out inside the path, and is then the path of the Uri-Path options in front of any higher option. |
| Extraction.ValidUriMeans | sig-net-parse.cpp:641-681 | A URI is of the scope exactly if it begins with the prefix, the version and the scope, each closed by a slash. |
| Extraction.ExtractIsExact | sig-net-node-udp-listen.hpp:121-172 | For every byte string: URI, options and payload are extracted if and only if the packet contains them in that sense. |
| Receive.VerifyPacketHMAC | sig-net-parse.cpp:686-740 | Succeeds exactly when all 32 recomputed bytes match; the loop never stops early. |
| Receive.BuiltWalk | sig-net-parse.cpp:312-341 | The options of a built packet are walked exactly as written, up to the marker. |
| Receive.EndToEnd | sig-net-node-udp-listen.hpp:121-172 | A built packet with a payload is extracted as the signed URI, the same options and payload, and verifies under the signing key, for any HMAC function. |
| Receive.DmxEndToEnd | sig-net-send.cpp:507-580 | A DMX packet arrives as it was sent, for every valid universe, scope and slot count. |
| Receive.PollEndToEnd | sig-net-send.cpp:663-734 | A poll is always built and arrives as it was sent. |
| Receive.AnnounceEndToEnd | sig-net-send.cpp:585-658 | An announcement is always built and arrives block for block. |
| NodeProfile.ScanTable | sig-net-tid-strings.hpp:262-303 | The table scan returns the first entry for a TID, or -1. |
| NodeProfile.BuildSupportedTidBytes | sig-net-node-profile.hpp:60-95 | Lists as many of the 28 advertised TIDs, in order, as the buffer holds. |
| NodeProfile.AdvertisedAt | sig-net-node-profile.hpp:60-95 | The list holds the k-th advertised TID at bytes 2k and 2k + 1, big-endian. |
| NodeStore.FindSupportedTidBlob | sig-net-node-data.cpp:190-206 | Returns the first reachable slot labelled with the TID; the last slot of each half is never searched. |
| NodeStore.LookupIsFixed | sig-net-node-data.cpp:190-206 | With every slot labelled as constructed, lookup depends on the TID alone. |
| NodeStore.SlotOfLabel | sig-net-node-data.cpp:112-178 | Labels are unique: a reachable slot is found under its own TID. |
| NodeStore.ReachIsExact | sig-net-node-data.cpp:120-206 | Every slot is found under its TID but the last of each half, whose two TIDs are not found. |
| NodeStore.EveryParameterIsStored | sig-net-tid-strings.hpp:305-349 | Every parameter of the profile table has a reachable slot, in the half of the store its endpoint flags name. |
| NodeStore.StoreIfChanged | sig-net-node-data.cpp:67-110 | Reports a change exactly when the blob changes; refuses more than 512 bytes. |
| NodeStore.ClearAllManagerStaleFlags | sig-net-node-data.cpp:213-228 | Clears the manager flag of every reachable slot and touches nothing else. |
| NodeDefaults.InitialStoreIsValid | sig-net-node/sig-net-node-main-form.cpp:770-1019 | The initial store is valid exactly when the label has at most 64 characters and the universe is in range. |
| NodeBlocks.LexIsNumeric | sig-net-node/sig-net-node-main-form.cpp:1045-1048 | Comparing TUIDs byte by byte compares them as 48-bit numbers. |
| NodeBlocks.PollIsAnswered | sig-net-node/sig-net-node-main-form.cpp:1021-1078 | A poll as encoded is answered exactly by the nodes in its numeric TUID range whose endpoint it names, with the level and endpoints asked for. |
| NodeBlocks.LastWriteStays | sig-net-node/sig-net-node-main-form.cpp:2122-2222 | After a packet each parameter holds the last value an accepted SET or a level block wrote, or what it held; refused SETs and voiding make no difference. |
| NodeBlocks.LabelsStay | sig-net-node/sig-net-node-main-form.cpp:717-739 | No packet changes which TID a slot is for. |
| NodeBlocks.VoidedMeans | sig-net-node/sig-net-node-main-form.cpp:2206-2208 | A transaction is voided exactly when one of its SETs is refused. |
| NodeBlocks.TidsMean | sig-net-node/sig-net-node-main-form.cpp:2209-2212 | The TIDs to confirm are those of the first 32 accepted SETs, in order. |
| NodeBlocks.ReplyEndpointMeans | sig-net-node/sig-net-node-main-form.cpp:2195-2237 | After any packet the confirmation is to come from the endpoint of the last accepted SET, or the packet's own if there is none. |
| NodeBlocks.RequestMeans | sig-net-node/sig-net-node-main-form.cpp:2163-2180 | After any packet the request is that of its last matching poll; it counts as a poll exactly if there is one. |
| NodeBlocks.AcceptedValues | sig-net-node/sig-net-node-main-form.cpp:1358-1414 | Exactly which SETs are accepted: a reachable TID other than the scope, 1 to 512 bytes, and the length and range of each constrained TID in numbers. |
| NodeBlocks.PersistentMeans | sig-net-node/sig-net-node-main-form.cpp:2214-2216 | The persistent mark is set exactly when some accepted SET changed a persistent parameter. |
| NodeBlocks.CommitsMeans | sig-net-node/sig-net-node-main-form.cpp:2228-2237 | A packet is confirmed exactly when it holds an accepted SET and no refused one. |
| NodeBlocks.CountMeans | sig-net-node/sig-net-node-main-form.cpp:2228-2237 | CHANGE_COUNT advances by one exactly for a packet with no refused SET and a changed persistent parameter. |
| NodeBlocks.ChangeIsCounted | sig-net-node/sig-net-node-main-form.cpp:2228-2237 | In a packet with no refused SET no persistent parameter changes uncounted. |
| NodeBlocks.VoidedPacketIsHarmless | sig-net-node/sig-net-node-main-form.cpp:2224-2237 | A voided packet leaves every value as it was exactly when the last value it writes to each is the one held: it is not rolled back. |
| NodeBlocks.VoidedPacketLeavesItsMark | sig-net-node/sig-net-node-main-form.cpp:2206-2218 | Ten payload bytes of a command to the root endpoint, a valid SET and a refused one, that void the transaction and leave the first value behind, unconfirmed and uncounted. |
| NodeTransaction.Node.constructor | sig-net-node/sig-net-node-main-form.cpp:81-125 | A node starts with the default parameters, count 0, counters 1, 1, 1, and nothing sent. |
| NodeTransaction.Node.Send | sig-net-node/sig-net-node-main-form.cpp:1504-1518 | Every attempt carries the next pair and message number; the counters move on only if the packet went out. |
| NodeTransaction.Node.HandleSetRequest | sig-net-node/sig-net-node-main-form.cpp:1358-1414 | Refuses an unknown, fixed, over-long or invalid SET, else stores it and reports whether the value changed; manager and interface flags as the origin demands. |
| NodeTransaction.Node.HandlePollTLV | sig-net-node/sig-net-node-main-form.cpp:1021-1078 | Keeps the request of a well-formed poll for this node, and nothing else. |
| NodeTransaction.Node.StoreLevels | sig-net-node/sig-net-node-main-form.cpp:2134-2161 | Stores received levels in the level blob and its foldback copy. |
| NodeTransaction.Node.SendGetResponse | sig-net-node/sig-net-node-main-form.cpp:1232-1284 | Answers a GET exactly if the shown TUID can be read and there is something to say: supported TIDs from the profile, an empty foldback as one zero byte, any other parameter only if it holds a value. |
| NodeTransaction.GetTellsLastWrite | sig-net-node/sig-net-node-main-form.cpp:1249-1284 | Over any packet, a GET is answered with the whole of the last value written to its parameter, by an earlier block of the same packet or before it; with one zero byte for an empty foldback; not at all for any other empty parameter. |
| NodeTransaction.GetReplyFits | sig-net-node/sig-net-node-main-form.cpp:1286-1330 | The reply to a GET is never empty and always fits in one packet. |
| NodeTransaction.Node.HandleBlock | sig-net-node/sig-net-node-main-form.cpp:2128-2220 | One block: lane and endpoint filters, broadcast resolution, levels, polls, GETs and SETs, on state, tally, log and Lost Mode timer; a GET is attempted exactly if there is something to say. |
| NodeTransaction.Node.SendProactiveResponse | sig-net-node/sig-net-node-main-form.cpp:1653-1677 | Root reply first, then data; stops at the first failure; the manager's flags are cleared exactly if every reply went out. |
| NodeTransaction.Node.SendSetReply | sig-net-node/sig-net-node-main-form.cpp:1421-1525 | One confirmation with each parameter's current value and CHANGE_COUNT, attempted exactly if the shown TUID can be read and the packet fits. |
| NodeTransaction.Node.ProcessBlocks | sig-net-node/sig-net-node-main-form.cpp:2114-2222 | The block loop stops at the first malformed block and performs exactly those before it. |
| NodeTransaction.Node.ProcessPayload | sig-net-node/sig-net-node-main-form.cpp:2105-2238 | Whole effect of a packet: parameters, request, CHANGE_COUNT, timer, and every reply attempted: GETs, then poll replies up to the first that fails, then at most one confirmation; the manager's flags are cleared exactly if all poll replies went out. |
| NodeTransaction.Node.CommitRootDeviceLabel | sig-net-node/sig-net-node-main-form.cpp:389-421 | A non-empty label is cut to 64 characters, stored in wire form, and flagged for the manager only if it changed. |
| NodeTransaction.Node.CommitUniverse | sig-net-node/sig-net-node-main-form.cpp:439-462 | A universe is stored and flagged only if it changed; its range is not checked. |
| NodeTransaction.ConfirmationIsTruthful | sig-net-node/sig-net-node-main-form.cpp:1443-1459 | A confirmation reports, for each of the first 32 accepted SETs in turn, the value last written to that parameter, then CHANGE_COUNT. |
| NodeRuns.EveryValueIsTheLastWritten | sig-net-node/sig-net-node-main-form.cpp:1358-1414 | At any point of any run of packets and local changes, each parameter holds the last value written to it. |
| NodeRuns.NeverEmptied | sig-net-node/sig-net-node-main-form.cpp:784-786 | Over every run a parameter that holds a value is never emptied, so the defaults are filled in only once. |
| NodeRuns.UniverseCommitKeepsValid | sig-net-node/sig-net-node-main-form.cpp:447-458 | A local universe keeps the store valid exactly when it is in range. |
| NodeRuns.StoreStaysValid | sig-net-node-profile.hpp:97-145 | From acceptable settings, under any interleaving, every constrained parameter holds a valid value of at most 512 bytes and every TID keeps its slot. |
| NodeRuns.ValuesStayInRange | sig-net-node-profile.hpp:97-182 | So over every run the multicast state is 0 or 1, the universe 1 to 63999, and eleven more parameters have their lengths and ranges, in numbers. |
| NodeRuns.CommitMeans | sig-net-node/sig-net-node-main-form.cpp:389-462 | A label entered at the node is cut to 64 characters; it and a universe are stored, flagged exactly if they are a change or were flagged before, and change nothing else. |
| NodeRuns.CountIsExact | sig-net-node/sig-net-node-main-form.cpp:2228-2237 | CHANGE_COUNT is, modulo 2^16, the number of packets with no refused SET and a changed persistent parameter; each adds at most one. |
| NodeRuns.SlipsMeans | sig-net-node/sig-net-node-main-form.cpp:2195-2237 | One event changes a persistent parameter and leaves CHANGE_COUNT as it was if and only if it writes another value there from the node's own interface or in a packet with a refused SET. |
| NodeRuns.CountTellsExactly | sig-net-node/sig-net-node-main-form.cpp:2228-2237 | Over every run of fewer than 2^16 events: equal counts at any two points mean equal values of a persistent parameter if and only if no event of the run changes it in one of those two ways. |
| NodeRuns.SameCountSameParameters | sig-net-node/sig-net-node-main-form.cpp:2228-2237 | So over fewer than 2^16 packets without a refused SET, the same CHANGE_COUNT means every persistent parameter is unchanged. |
| NodeRuns.LocalChangeIsNotCounted | sig-net-node/sig-net-node-main-form.cpp:406-420 | A label changed at the node is flagged for the manager but not counted. |
| PollReply.Append | sig-net-node-data.cpp:252-262 | Appends a parameter that belongs on the endpoint, by its default if empty, or reports BufferFull. |
| PollReply.BuildNodeQueryPayload | sig-net-node-data.cpp:271-571 | The payload is exactly the level's blocks; BufferFull if they do not fit; InvalidArg if all before an over-long version text does. |
| PollReply.LowerIsPrefix | sig-net-node-data.cpp:271-571 | For the same data the payload at each level is a prefix of the payload at every higher level. |
| PollReply.ReplyIsTruthful | sig-net-node-data.cpp:280-568 | Every block says what the node's own lookup of its TID holds, or the TID's default if that is empty; the protocol version is cut to one byte and the firmware version widened to 32 bits and its text; the first block is the node's identity and CHANGE_COUNT. |
| PollReply.ReportedVersions | sig-net-node-data.cpp:490-525 | The two versions as reported, byte for byte: the first byte held or 1; the number held, widened, and its text to the first zero byte, or number 1 and the default text. |
| ReplyTiers.TiersAreExact | sig-net-node-data.cpp:280-568 | For every level and endpoint the exact TIDs of a reply, in order. |
| ReplyTiers.RootIsCovered | sig-net-node-data.cpp:280-568 | An extended reply of the root endpoint reports every root parameter of the profile exactly once, and the supported TIDs exactly if the list is held. |
| ReplyTiers.DataIsCovered | sig-net-node-data.cpp:280-568 | A configuration reply of a data endpoint reports every data parameter exactly once but the level foldback, which no reply reports; the full reply repeats the capability. |
| PollReply.BuiltBySize | sig-net-node/sig-net-node-main-form.cpp:1752-1786 | Whether a reply fits depends on the packet limit alone; the HMAC input is always shorter. |
| PollReply.SendPollReplyWithQueryLevel | sig-net-node/sig-net-node-main-form.cpp:1714-1797 | The degrade loop terminates; every level above the one it ends at was too long; on success it holds exactly that level's signed packet. |
| PollReply.HeartbeatFits | sig-net-node/sig-net-node-main-form.cpp:1736-1791 | A heartbeat reply always fits, whatever the blobs hold. |
| PollReply.SettlesOnGreatestFit | sig-net-node/sig-net-node-main-form.cpp:1736-1791 | It ends with a packet at the greatest level, not above the requested one, that fits; it fails exactly for a full or extended reply of the root endpoint with a version text over 64 bytes and room for all before it. |
| PollReply.LowerFits | sig-net-node/sig-net-node-main-form.cpp:1736-1791 | A level that fits leaves every lower one fitting. |
| LostMode.Watchdog.TimerTick | sig-net-node/sig-net-node-main-form.cpp:635-652 | State and announcement of one tick, on a wrapping clock. |
| LostMode.Watchdog.SetKeys | sig-net-node/sig-net-node-main-form.cpp:288-290 | Deriving or clearing keys changes nothing else of the timer. |
| LostMode.Watchdog.ButtonGoLive | sig-net-node/sig-net-node-main-form.cpp:313-333 | Takes the node live if it has keys and the announcement went out. |
| LostMode.Watchdog.HearPoll | sig-net-node/sig-net-node-main-form.cpp:2163-2178 | Any authenticated poll restarts the timer and ends Lost Mode. |
| LostMode.TickCases | sig-net-node/sig-net-node-main-form.cpp:639-650 | Entering Lost Mode always announces on the same tick. |
| LostMode.OneEvent | sig-net-node/sig-net-node-main-form.cpp:635-652 | One event at true time t keeps the clock readings faithful to true time. |
| LostMode.EnteredOnlyAfterSilence | sig-net-node/sig-net-node-main-form.cpp:637-645 | Over every run, Lost Mode is entered only by a tick of a node taken live, more than 9000 ms of true time after every poll and Go Live. |
| LostMode.AnnouncementsAreSpaced | sig-net-node/sig-net-node-main-form.cpp:646-650 | Over every run, two announcement attempts are at least 3000 ms of true time apart. |
| LostMode.LeftExactlyByHearing | sig-net-node/sig-net-node-main-form.cpp:635-652 | Over every run, Lost Mode is left exactly by the polls and Go Lives that take effect. |
| LostMode.SilenceIsNoticed | sig-net-node/sig-net-node-main-form.cpp:637-650 | Over every run, after a poll or Go Live heard by a live node and then only ticks at most D apart, the node is in Lost Mode after a tick exactly when that tick is more than 9000 ms later; and it has then tried to announce itself less than 3000 ms before. |
| LostMode.FullTurnIsMissed | sig-net-node/sig-net-node-main-form.cpp:640 | A tick a full clock turn after the last poll notices nothing: the bound on D is needed. |
| NodeReceive.CheckManagerTuid | sig-net-node/sig-net-node-main-form.cpp:2036-2063 | A manager URI must name this node's TUID, in either case. |
| SecurityEvents.EventLog.Record | sig-net-node/sig-net-node-main-form.cpp:1088-1096 | Adds one to the counter of a known event code, modulo 2^32, and does nothing for others. |
| SecurityEvents.EventLog.MaySend | sig-net-node/sig-net-node-main-form.cpp:1132-1144 | Lets an event through if its code never went out, by a reading of 0, or last went out at least 1000 ms ago by the wrapping clock. |
| SecurityEvents.EventsAreSpaced | sig-net-node/sig-net-node-main-form.cpp:1138-1144 | Over every run, two successive packets of one code are a second of true time apart, unless the first went out at clock reading 0. |
| SecurityEvents.LimiterIsExact | sig-net-node/sig-net-node-main-form.cpp:1138-1144 | Below a full clock turn the limiter lets exactly such packets through. |
| SecurityEvents.ReadingZeroDoesNotHold | sig-net-node/sig-net-node-main-form.cpp:1139-1144 | Two packets of one code a millisecond apart, the first at clock reading 0: the exception is real. |
| NodeTransaction.Node.SetKeys | sig-net-node/sig-net-node-main-form.cpp:240-296 | New keys, or none: whether the node can act changes, and nothing it holds. |
| NodeTransaction.Node.GoLive | sig-net-node/sig-net-node-main-form.cpp:313-333 | With keys, announces the node, and takes it live exactly if that worked. |
| NodeTransaction.Node.LifecycleTick | sig-net-node/sig-net-node-main-form.cpp:635-652 | One timer tick: Lost Mode state, and a heartbeat attempt exactly when one is due, on the shared counters. |
| NodeReceive.ScreeningIsExact | sig-net-node/sig-net-node-main-form.cpp:1935-2093 | For every byte string: it is genuine if and only if it is a non-confirmable POST of CoAP version 1 that contains a URI, options and payload, is in mode 0x00, is for endpoint 0, 1 or 0xFFFF and names this node if it names one, and its HMAC is what the key of its lane gives for its signed bytes; it is forged if and only if only the last fails. |
| NodeReceive.ScreenPacket | sig-net-node/sig-net-node-main-form.cpp:1935-2093 | The checks before freshness, in order: header, extraction, endpoint, keys, TUID, mode, key by lane, HMAC, with that outcome. |
| NodeReceive.Receiver.Report | sig-net-node/sig-net-node-main-form.cpp:1130-1224 | Counts a security event; attempts one packet exactly if the rate limit and the shown TUID allow, and restarts the limit only if it went out. |
| NodeReceive.Receiver.ProcessIncomingPacket | sig-net-node/sig-net-node-main-form.cpp:1935-2238 | Only an admissible packet with the HMAC of its lane's key is applied. A dropped packet changes nothing; a forged or stale one only the event counters, the rate limit and the log; a fresh one has exactly its payload's effect on parameters, request, CHANGE_COUNT, Lost Mode timer and replies; the tracker moves with authentic packets only. |
| NodeReceive.AppliedStrictlyIncrease | sig-net-node/sig-net-node-main-form.cpp:2095-2110 | Over every run of datagrams, those applied from a sender carry strictly increasing pairs, if it keeps talking or at most 32 Sender-IDs are in play. |
| NodeReceive.OnlySignedIsApplied | sig-net-node/sig-net-node-main-form.cpp:2087-2110 | Over every run: each applied datagram is admissible and signed, and one that is not changes neither parameters, request nor CHANGE_COUNT, nor the tracker. |
| NodeReceive.ReplayIsHarmless | sig-net-node/sig-net-node-main-form.cpp:2095-2110 | For every run: an authentic datagram not newer than the last applied of its sender's is applied if and only if the tracker it meets has lost its sender's mark and has room for it; otherwise parameters, poll request and CHANGE_COUNT stay exactly as they were. |
| NodeReceive.MarkIsLastApplied | sig-net-node-udp-listen.hpp:398-424 | Over every run of datagrams, a mark the tracker holds is that of the sender's last applied datagram, however old. |
| NodeReceive.LastAppliedIs | sig-net-node/sig-net-node-main-form.cpp:2095-2110 | The datagram meant by that is applied and from that sender, and none after it is. |
| NodeReceive.GuardedReplayIsHarmless | sig-net-node/sig-net-node-main-form.cpp:2095-2110 | While a sender keeps talking or at most 32 Sender-IDs are in play, every stale datagram leaves parameters, poll request and CHANGE_COUNT exactly as they were. |
| SenderToNode.CommandNames | sig-net-node/sig-net-node-main-form.cpp:2036-2063 | A command names a node exactly when it carries its TUID and the scope is not "manager". |
| SenderToNode.CommandReachesNode | sig-net-node/sig-net-node-main-form.cpp:1935-2222 | Any list of blocks that a manager signs with the node's local key for endpoint 0, 1 or 0xFFFF passes every check and reaches the node as exactly those blocks, under that endpoint. |
| SenderToNode.SetIsScreened | sig-net-node/sig-net-node-main-form.cpp:1935-2093 | A built SET for an endpoint of the node passes every check before freshness and means there that SET and nothing else. |
| SenderToNode.SetReachesNode | sig-net-node/sig-net-node-main-form.cpp:2200-2237 | A built SET of an allowed value ends up in the slot of its TID, and advances CHANGE_COUNT exactly if it changes a persistent parameter. |
| SenderToNode.VoidedCommandLeavesItsMark | sig-net-node/sig-net-node-main-form.cpp:2206-2237 | A built and accepted command that voids its transaction and still changes a parameter, with CHANGE_COUNT unmoved. |
| SenderToNode.BuiltIsAuthentic | sig-net-node/sig-net-node-main-form.cpp:1935-2093 | A packet built in the node's scope for an endpoint it has, naming it if it names a node, and signed with the key of its lane, passes every check before freshness with URI, payload and counters intact. |
| SenderToNode.PollReachesNode | sig-net-node/sig-net-node-main-form.cpp:2163-2178 | A manager's poll reaches every node with the key as exactly one poll with the request it encodes. |
| SenderToNode.LevelsReachNode | sig-net-node/sig-net-node-main-form.cpp:2134-2161 | A DMX packet for the node's universe ends up slot for slot in its level and foldback blobs. |
| SenderToNode.LevelsAreStored | sig-net-node/sig-net-node-main-form.cpp:2134-2161 | Received levels go to the level blob and its foldback copy, flagged for the interface once; no other parameter, flag, request or count changes. |
| NodeAnswers.GetIsScreened | sig-net-node/sig-net-node-main-form.cpp:2182-2206 | A built GET, a block without a value, means a GET of its TID at the endpoint addressed, or for a broadcast at 1 if the TID is of the data endpoint and at 0 if not; one that may not be read is ignored. |
| NodeAnswers.GetIsAnsweredFrom | sig-net-node/sig-net-node-main-form.cpp:1232-1284 | From a built GET to the log: exactly one reply, from that endpoint, with the whole value held; the advertised list for the supported TIDs; one zero byte for an empty foldback; no reply for any other empty parameter or without a readable TUID; and no other change. |
| NodeAnswers.SetIsConfirmedFrom | sig-net-node/sig-net-node-main-form.cpp:2195-2237 | From a built SET to store and log: an accepted value is stored with its flags, counted exactly if it changes a persistent parameter, and confirmed with itself and the count by exactly one reply from that endpoint; a refused one leaves no trace. |
| NodeAnswers.PollIsAnsweredFrom | sig-net-node/sig-net-node-main-form.cpp:1653-1677 | From an encoded poll to the log: a node in range attempts exactly one reply from endpoint 0 or 1 if that is named, and for the broadcast address one from 0 and then, if it went out, one from 1, each at the level asked for; any other poll gets none. |
| NodeAnswers.PollIsDone | sig-net-node/sig-net-node-main-form.cpp:2163-2180 | Any poll restarts the Lost Mode timer and ends Lost Mode; the flags for the manager are cleared exactly if all replies went out; nothing else changes. |
| NodeAnswers.OutsidersAreIgnored | sig-net-node/sig-net-node-main-form.cpp:2128-2200 | In a command TIDs of other lanes or of the other endpoint are ignored, under the poll URI everything but polls, under a level URI everything but 1 to 512 levels for the universe the node shows. |
| NodeToManager.ReplyEndToEnd | sig-net-node/sig-net-node-main-form.cpp:1460-1500 | Any list of blocks a node builds into a packet is extracted as that list, from its own URI and endpoint, in the citizen lane, with its counters, and verifies under the key. |
| NodeToManager.PollReplyReachesManager | sig-net-node-data.cpp:280-568 | A poll reply that the degrade loop ends with is delivered as the blocks of the greatest level that fits, and every block says what the node holds. |
| NodeToManager.ConfirmationReachesManager | sig-net-node/sig-net-node-main-form.cpp:1421-1525 | A confirmation is delivered as the last written values of the first 32 accepted SETs, then CHANGE_COUNT. |
| FirmwareLimit.LongTextMeans | sig-net-tlv.cpp:232-243 | The version text is over 64 bytes exactly if the 65 bytes after the number exist and none is zero. |
| FirmwareLimit.LongVersionStopsReplies | sig-net-tlv.cpp:232-243 | While a node holds such a value, a full or extended poll of its root endpoint ends in InvalidArg if everything before the version fits, and is answered otherwise. |
| FirmwareLimit.LongVersionIsStored | sig-net-node/sig-net-node-main-form.cpp:1358-1414 | A built SET of such a value of at most 512 bytes is accepted and stored, and changes no other value. |
| FirmwareLimit.LongVersionSilencesNode | sig-net-node-data.cpp:505-530 | After that one command a node that has just started answers no full or extended poll of its root endpoint, whatever its label. |
| Passphrase.ScanCharClasses | sig-net-crypto.cpp:380-391 | Reports exactly the classes present; a NUL counts as a symbol. |
| Passphrase.HasIdenticalRun | sig-net-crypto.cpp:393-400 | True exactly if three equal characters stand in a row. |
| Passphrase.HasSequentialRun | sig-net-crypto.cpp:402-410 | True exactly if four consecutive characters rise or fall by one. |
| Passphrase.AnalysePassphrase | sig-net-crypto.cpp:415-451 | Valid exactly for acceptable passphrases; otherwise the first rule broken in the fixed order. |
| Passphrase.PlaceDiffers | sig-net-crypto.cpp:632-636 | The replacement rule always works, so the triple check that follows never fires. |
| Passphrase.DrawnShape | sig-net-crypto.cpp:605-643 | Every draw starts with three classes and never has two equal neighbours. |
| Passphrase.CharacterAt | sig-net-crypto.cpp:605-643 | Each drawn character in terms of its random byte: its class, its place in the alphabet, and the next lower-case letter for a repetition. |
| Passphrase.DrawnIsAcceptable | sig-net-crypto.cpp:605-649 | A draw is acceptable exactly when it holds no sequential run. |
| Passphrase.GenerateRandomPassphrase | sig-net-crypto.cpp:588-657 | For all random bytes the result is acceptable; it is the fixed fallback exactly when the draw holds a sequential run. |
| Passphrase.FallbackIsReachable | sig-net-crypto.cpp:649-653 | The fallback is reached for some random bytes. |

## Left out

- Sockets, multicast groups, address folding, logging, dialogs and all drawing: input and output.
- HMAC, HKDF and PBKDF2 internals, random numbers, memory wiping: HMAC is an arbitrary function, random bytes are an arbitrary input.
- The content of security event packets, the address kept with an event, and the stale-flag flush of the receive timer: further senders of the same shape as those modelled; each attempt is logged.
- SyncUIFromStaleBlobs: it copies blobs to widgets and clears interface flags; the universe the interface shows is a parameter of each packet.
- The desktop application's node simulator: it repeats the node's logic.
- PacketBuffer.Seek and WriteUInt32, PacketReader.ReadUInt32 and ReadBytes: not used by the modelled code, or used only where two 16-bit writes say the same.
- BuildNodeLostURIPathOptions and the other TLV encoders: same shape as those modelled.
- PacketIO.PacketBuffer.WriteBytes: after BufferFull in the middle of a sequence of writes only the content before the sequence is described, not the partial tail, which no caller uses.
- Lanes.ParseUniverseFromURI: does not model overflow of the C int on decimal segments of more than nine digits.
- Lanes.ValidPaths: the scope is a parameter; SetURIScope and the global it fills are the predicate ValidScope.
- Receive.VerifyPacketHMAC: the accumulated exclusive-or is a boolean that never stops the loop; timing is not modelled.
- NodeTransaction.Node.SendGetResponse: a GET of the security events is logged as an attempt whether or not any event has been counted; without one the source sends nothing.
- NodeTransaction.Node.Send: for GET replies, poll replies, announcements and security events, building the packet and sending it are one step that may fail for any reason; PollReply.SendPollReplyWithQueryLevel models the building of poll replies in full, NodeTransaction.GetReplyFits says that GET replies always fit, and confirmations are built where they are sent.
- NodeTransaction.Node.ProcessPayload: the clock is read once per packet, not once per poll block.
- NodeStore.FindSupportedTidBlob: a blob is its value; bytes of its buffer beyond the length are not modelled, except that a version text ends at the first zero byte.
- NodeReceive.ReplayIsHarmless: stated for runs of datagrams without local changes in between; those do not touch the tracker.
- Checks for null arguments: the model has no null.
