/**
 The poll reply: cumulative tiers of parameters, and the loop that lowers the
 query level until the reply fits in one packet.
 */
module PollReply {
  import opened Bytes
  import opened Freshness
  import opened Tids
  import opened PacketIO
  import opened CoapWalk
  import opened Text
  import opened UriPath
  import opened Lanes
  import opened SigNetOptions
  import opened TlvStream
  import opened PacketHead
  import opened SignedPacket
  import opened NodeStore
  import opened NodeDefaults
  import P = NodeProfile

  datatype Identity = Identity(tuid: Tuid, mfg: u16, variant: u16, changeCount: u16)

  const FIRMWARE_LIMIT: nat := 64

  /** What the source's blobs always satisfy: 44 of them, none longer than 512 bytes. */
  ghost predicate Sized(s: seq<Blob>) {
    |s| == SLOTS && forall i :: 0 <= i < |s| ==> |s[i].value| <= BLOB_MAX_BYTES
  }

  // -------------------------------------------------------------------- tiers

  /** A parameter, if it belongs on the endpoint; its default stands in for an empty value. */
  function Item(endpoint: u16, tid: u16, value: seq<byte>, default: seq<byte>): seq<Tlv>
    requires |value| < WRAP16 && |default| < WRAP16
  {
    if P.IsTidAllowedForEndpoint(tid, endpoint) then [Tlv(tid, if value != [] then value else default)] else []
  }

  ghost function WithHeartbeat(n: Identity, s: seq<Blob>, e: u16): seq<Tlv>
    requires Sized(s)
  {
    [PollReplyTlv(n.tuid, n.mfg, n.variant, n.changeCount)]
    + Item(e, TID_RT_ENDPOINT_COUNT, s[1].value, DEFAULT_ENDPOINT_COUNT)
    + Item(e, TID_RT_MULT, s[5].value, DEFAULT_MULT)
  }

  ghost function WithConfig(base: seq<Tlv>, s: seq<Blob>, e: u16): seq<Tlv>
    requires Sized(s)
  {
    base
    + Item(e, TID_RT_DEVICE_LABEL, s[4].value, DEFAULT_DEVICE_LABEL)
    + Item(e, TID_RT_IDENTIFY, s[6].value, DEFAULT_IDENTIFY)
    + Item(e, TID_RT_STATUS, s[7].value, DEFAULT_STATUS)
    + Item(e, TID_RDM_PORT_CONFIG, s[37].value, DEFAULT_RDM_PORT_CONFIG)
    + Item(e, TID_RDM_FLOW_CONTROL, s[39].value, DEFAULT_RDM_FLOW_CONTROL)
    + Item(e, TID_EP_UNIVERSE, s[26].value, U16(DEFAULT_UNIVERSE))
    + Item(e, TID_EP_LABEL, s[27].value, DEFAULT_EP_LABEL)
    + Item(e, TID_EP_MULT_OVERRIDE, s[28].value, DEFAULT_MULT_OVERRIDE)
    + Item(e, TID_EP_DIRECTION, s[30].value, DEFAULT_DIRECTION)
    + Item(e, TID_EP_INPUT_PRIORITY, s[31].value, DEFAULT_INPUT_PRIORITY)
    + Item(e, TID_EP_STATUS, s[32].value, DEFAULT_STATUS)
    + Item(e, TID_EP_FAILOVER, s[33].value, DEFAULT_FAILOVER)
    + Item(e, TID_EP_DMX_TIMING, s[34].value, DEFAULT_DMX_TIMING)
    + Item(e, TID_EP_REFRESH_CAPABILITY, s[35].value, DEFAULT_REFRESH_CAPABILITY)
    + Item(e, TID_EP_PROTOCOL, s[36].value, DEFAULT_PROTOCOL)
    + Item(e, TID_EP_CAPABILITY, s[29].value, DEFAULT_CAPABILITY)
  }

  /** The full tier up to the firmware version: the supported TIDs have no default, the protocol version is one byte. */
  ghost function WithFullHead(base: seq<Tlv>, s: seq<Blob>, e: u16): seq<Tlv>
    requires Sized(s)
  {
    base
    + (if s[0].value != [] then Item(e, TID_RT_SUPPORTED_TIDS, s[0].value, []) else [])
    + Item(e, TID_RT_PROTOCOL_VERSION, FirstByte(s[2].value), DEFAULT_PROTOCOL_VERSION)
  }

  function FirstByte(value: seq<byte>): seq<byte> {
    if value == [] then [] else value[..1]
  }

  /** The version text: a C string after the two-byte number, or the default. */
  function FirmwareText(value: seq<byte>): seq<byte> {
    if |value| >= 2 then CString(value[2..]) else DEFAULT_FIRMWARE_TEXT
  }

  function FirmwareId(value: seq<byte>): u16 {
    if |value| >= 2 then FromU16(value[..2]) else 0x0001
  }

  /** The number widened to 32 bits, then the text. */
  function FirmwareValue(value: seq<byte>): seq<byte> {
    U32(FirmwareId(value)) + FirmwareText(value)
  }

  ghost function WithFullTail(base: seq<Tlv>, s: seq<Blob>, e: u16): seq<Tlv>
    requires Sized(s)
  {
    FirmwareShorter(s[3].value);
    base
    + Item(e, TID_RT_FIRMWARE_VERSION, FirmwareValue(s[3].value), [])
    + Item(e, TID_RT_ROLE_CAPABILITY, s[8].value, DEFAULT_ROLE_CAPABILITY)
    + Item(e, TID_RT_MODEL_NAME, s[10].value, DEFAULT_MODEL_NAME)
    + Item(e, TID_EP_CAPABILITY, s[29].value, DEFAULT_CAPABILITY)
  }

  lemma FirmwareShorter(value: seq<byte>)
    ensures |FirmwareText(value)| <= |value| + |DEFAULT_FIRMWARE_TEXT|
    ensures |DEFAULT_FIRMWARE_TEXT| == 10
  {
  }

  ghost function WithExtended(base: seq<Tlv>, s: seq<Blob>, e: u16): seq<Tlv>
    requires Sized(s)
  {
    base + Item(e, TID_DG_SECURITY_EVENT, s[24].value, DEFAULT_SECURITY_EVENT)
  }

  /** Everything a full reply holds before the firmware version. */
  ghost function BeforeFirmware(n: Identity, s: seq<Blob>, e: u16): seq<Tlv>
    requires Sized(s)
  {
    WithFullHead(WithConfig(WithHeartbeat(n, s, e), s, e), s, e)
  }

  /** The blocks of a reply at a query level. */
  ghost function ReplyTlvs(level: nat, n: Identity, s: seq<Blob>, e: u16): seq<Tlv>
    requires Sized(s)
  {
    if level < 1 then WithHeartbeat(n, s, e)
    else if level < 2 then WithConfig(WithHeartbeat(n, s, e), s, e)
    else if level < 3 then WithFullTail(BeforeFirmware(n, s, e), s, e)
    else WithExtended(WithFullTail(BeforeFirmware(n, s, e), s, e), s, e)
  }

  /**
   The one reply that cannot be encoded: from the root endpoint, at the full
   tiers, a version text of more than 64 bytes.
   */
  predicate FirmwareTooLong(level: nat, s: seq<Blob>, e: u16)
    requires |s| == SLOTS
  {
    level >= 2 && P.IsTidAllowedForEndpoint(TID_RT_FIRMWARE_VERSION, e) && |FirmwareText(s[3].value)| > FIRMWARE_LIMIT
  }

  // ----------------------------------------------------------------- building

  /** Appends a parameter, unless an earlier one failed. */
  method Append(
    payload: PacketBuffer, r0: Status, ghost done: seq<Tlv>, e: u16, tid: u16, value: seq<byte>, default: seq<byte>)
    returns (r: Status, ghost next: seq<Tlv>)
    requires payload.Valid() && |value| < WRAP16 && |default| < WRAP16
    requires Wrote([], StreamBytes(done), r0, payload.Contents())
    modifies payload, payload.buffer
    ensures payload.Valid() && next == done + Item(e, tid, value, default)
    ensures Wrote([], StreamBytes(next), r, payload.Contents())
  {
    hide StreamBytes, TlvBytes, P.IsTidAllowedForEndpoint;
    r, next := r0, done + Item(e, tid, value, default);
    ghost var before := payload.Contents();
    if P.IsTidAllowedForEndpoint(tid, e) {
      var t := Tlv(tid, if |value| > 0 then value else default);
      if r == Success {
        r := EncodeTLV(payload, t);
      }
      WroteBoth([], StreamBytes(done), r0, before, TlvBytes(t), r, payload.Contents());
      StreamAppend(done, [t]);
      StreamSingle(t);
    } else {
      assert next == done;
    }
  }

  method AppendHeartbeat(payload: PacketBuffer, n: Identity, s: seq<Blob>, e: u16)
    returns (r: Status, ghost done: seq<Tlv>)
    requires payload.Valid() && Sized(s)
    modifies payload, payload.buffer
    ensures payload.Valid() && done == WithHeartbeat(n, s, e)
    ensures Wrote([], StreamBytes(done), r, payload.Contents())
  {
    hide Item, StreamBytes, TlvBytes, Wrote, PollReplyTlv;
    payload.Reset();
    r := EncodeTidPollReply(payload, n.tuid, n.mfg, n.variant, n.changeCount);
    done := [PollReplyTlv(n.tuid, n.mfg, n.variant, n.changeCount)];
    StreamSingle(done[0]);
    r, done := Append(payload, r, done, e, TID_RT_ENDPOINT_COUNT, s[1].value, DEFAULT_ENDPOINT_COUNT);
    r, done := Append(payload, r, done, e, TID_RT_MULT, s[5].value, DEFAULT_MULT);
  }

  method AppendConfig(payload: PacketBuffer, r0: Status, ghost base: seq<Tlv>, s: seq<Blob>, e: u16)
    returns (r: Status, ghost done: seq<Tlv>)
    requires payload.Valid() && Sized(s)
    requires Wrote([], StreamBytes(base), r0, payload.Contents())
    modifies payload, payload.buffer
    ensures payload.Valid() && done == WithConfig(base, s, e)
    ensures Wrote([], StreamBytes(done), r, payload.Contents())
  {
    hide Item, StreamBytes, Wrote;
    r, done := r0, base;
    r, done := Append(payload, r, done, e, TID_RT_DEVICE_LABEL, s[4].value, DEFAULT_DEVICE_LABEL);
    r, done := Append(payload, r, done, e, TID_RT_IDENTIFY, s[6].value, DEFAULT_IDENTIFY);
    r, done := Append(payload, r, done, e, TID_RT_STATUS, s[7].value, DEFAULT_STATUS);
    r, done := Append(payload, r, done, e, TID_RDM_PORT_CONFIG, s[37].value, DEFAULT_RDM_PORT_CONFIG);
    r, done := Append(payload, r, done, e, TID_RDM_FLOW_CONTROL, s[39].value, DEFAULT_RDM_FLOW_CONTROL);
    r, done := Append(payload, r, done, e, TID_EP_UNIVERSE, s[26].value, U16(DEFAULT_UNIVERSE));
    r, done := Append(payload, r, done, e, TID_EP_LABEL, s[27].value, DEFAULT_EP_LABEL);
    r, done := Append(payload, r, done, e, TID_EP_MULT_OVERRIDE, s[28].value, DEFAULT_MULT_OVERRIDE);
    r, done := Append(payload, r, done, e, TID_EP_DIRECTION, s[30].value, DEFAULT_DIRECTION);
    r, done := Append(payload, r, done, e, TID_EP_INPUT_PRIORITY, s[31].value, DEFAULT_INPUT_PRIORITY);
    r, done := Append(payload, r, done, e, TID_EP_STATUS, s[32].value, DEFAULT_STATUS);
    r, done := Append(payload, r, done, e, TID_EP_FAILOVER, s[33].value, DEFAULT_FAILOVER);
    r, done := Append(payload, r, done, e, TID_EP_DMX_TIMING, s[34].value, DEFAULT_DMX_TIMING);
    r, done := Append(payload, r, done, e, TID_EP_REFRESH_CAPABILITY, s[35].value, DEFAULT_REFRESH_CAPABILITY);
    r, done := Append(payload, r, done, e, TID_EP_PROTOCOL, s[36].value, DEFAULT_PROTOCOL);
    r, done := Append(payload, r, done, e, TID_EP_CAPABILITY, s[29].value, DEFAULT_CAPABILITY);
  }

  method AppendFullHead(payload: PacketBuffer, r0: Status, ghost base: seq<Tlv>, s: seq<Blob>, e: u16)
    returns (r: Status, ghost done: seq<Tlv>)
    requires payload.Valid() && Sized(s)
    requires Wrote([], StreamBytes(base), r0, payload.Contents())
    modifies payload, payload.buffer
    ensures payload.Valid() && done == WithFullHead(base, s, e)
    ensures Wrote([], StreamBytes(done), r, payload.Contents())
  {
    hide Item, StreamBytes, Wrote;
    r, done := r0, base;
    if |s[0].value| > 0 {
      r, done := Append(payload, r, done, e, TID_RT_SUPPORTED_TIDS, s[0].value, []);
    }
    var version := if |s[2].value| > 0 then s[2].value[0] else DEFAULT_PROTOCOL_VERSION[0];
    r, done := Append(payload, r, done, e, TID_RT_PROTOCOL_VERSION, [version], []);
    OneByte(e, TID_RT_PROTOCOL_VERSION, s[2].value, version);
  }

  lemma OneByte(e: u16, tid: u16, value: seq<byte>, version: byte)
    requires |value| <= BLOB_MAX_BYTES && version == if |value| > 0 then value[0] else DEFAULT_PROTOCOL_VERSION[0]
    ensures Item(e, tid, [version], []) == Item(e, tid, FirstByte(value), DEFAULT_PROTOCOL_VERSION)
  {
    hide P.IsTidAllowedForEndpoint;
    if value != [] {
      assert [version] == FirstByte(value);
    } else {
      assert [version] == DEFAULT_PROTOCOL_VERSION;
    }
  }

  method AppendFullTail(payload: PacketBuffer, r0: Status, ghost base: seq<Tlv>, s: seq<Blob>, e: u16)
    returns (r: Status, ghost done: seq<Tlv>)
    requires payload.Valid() && Sized(s) && !FirmwareTooLong(2, s, e)
    requires Wrote([], StreamBytes(base), r0, payload.Contents())
    modifies payload, payload.buffer
    ensures payload.Valid() && done == WithFullTail(base, s, e)
    ensures Wrote([], StreamBytes(done), r, payload.Contents())
  {
    hide Item, StreamBytes, Wrote, FirmwareText;
    FirmwareShorter(s[3].value);
    var id, text := FirmwareId(s[3].value), FirmwareText(s[3].value);
    r, done := r0, base;
    r, done := Append(payload, r, done, e, TID_RT_FIRMWARE_VERSION, U32(id) + text, []);
    r, done := Append(payload, r, done, e, TID_RT_ROLE_CAPABILITY, s[8].value, DEFAULT_ROLE_CAPABILITY);
    r, done := Append(payload, r, done, e, TID_RT_MODEL_NAME, s[10].value, DEFAULT_MODEL_NAME);
    r, done := Append(payload, r, done, e, TID_EP_CAPABILITY, s[29].value, DEFAULT_CAPABILITY);
  }

  /**
   The payload of a reply: exactly the level's blocks; BufferFull if they do not
   fit; InvalidArg if all before an over-long version text does.
   */
  method BuildNodeQueryPayload(
    level: byte, e: u16, s: seq<Blob>, n: Identity, payload: PacketBuffer) returns (r: Status)
    requires payload.Valid() && Sized(s)
    modifies payload, payload.buffer
    ensures payload.Valid()
    ensures !FirmwareTooLong(level, s, e) ==> Wrote([], StreamBytes(ReplyTlvs(level, n, s, e)), r, payload.Contents())
    ensures FirmwareTooLong(level, s, e) ==>
              r == if |StreamBytes(BeforeFirmware(n, s, e))| <= MAX_UDP_PAYLOAD then InvalidArg else BufferFull
  {
    hide WithHeartbeat, WithConfig, WithFullHead, WithFullTail, WithExtended, StreamBytes, FirmwareText;
    ghost var done;
    r, done := AppendHeartbeat(payload, n, s, e);
    if level < QUERY_CONFIG {
      return;
    }
    r, done := AppendConfig(payload, r, done, s, e);
    if level < QUERY_FULL {
      return;
    }
    r, done := AppendFullHead(payload, r, done, s, e);
    if P.IsTidAllowedForEndpoint(TID_RT_FIRMWARE_VERSION, e) && |FirmwareText(s[3].value)| > FIRMWARE_LIMIT {
      return if r == Success then InvalidArg else r;
    }
    r, done := AppendFullTail(payload, r, done, s, e);
    if level < QUERY_EXTENDED {
      return;
    }
    hide Item;
    r, done := Append(payload, r, done, e, TID_DG_SECURITY_EVENT, s[24].value, DEFAULT_SECURITY_EVENT);
    ExtendedIs(done, WithFullTail(BeforeFirmware(n, s, e), s, e), s, e);
  }

  lemma ExtendedIs(done: seq<Tlv>, base: seq<Tlv>, s: seq<Blob>, e: u16)
    requires Sized(s) && done == base + Item(e, TID_DG_SECURITY_EVENT, s[24].value, DEFAULT_SECURITY_EVENT)
    ensures done == WithExtended(base, s, e)
  {
  }

  // ------------------------------------------------------------------- prefix

  lemma ConfigExtends(base: seq<Tlv>, s: seq<Blob>, e: u16)
    requires Sized(s)
    ensures base <= WithConfig(base, s, e)
  {
    hide Item;
  }

  lemma FullExtends(base: seq<Tlv>, s: seq<Blob>, e: u16)
    requires Sized(s)
    ensures base <= WithFullHead(base, s, e) && base <= WithFullTail(base, s, e) && base <= WithExtended(base, s, e)
  {
    hide Item, FirmwareValue;
  }

  /** Above the extended level nothing more is added. */
  lemma TopLevel(level: nat, n: Identity, s: seq<Blob>, e: u16)
    requires Sized(s)
    ensures ReplyTlvs(level, n, s, e) == ReplyTlvs(if level < 3 then level else 3, n, s, e)
  {
    hide WithHeartbeat, WithConfig, WithFullTail, WithExtended, BeforeFirmware;
  }

  lemma LowerTlvs(low: nat, high: nat, n: Identity, s: seq<Blob>, e: u16)
    requires Sized(s) && low <= high
    ensures ReplyTlvs(low, n, s, e) <= ReplyTlvs(high, n, s, e)
    ensures high >= 2 ==> BeforeFirmware(n, s, e) <= ReplyTlvs(high, n, s, e)
  {
    hide ReplyTlvs, BeforeFirmware, Sized;
    TiersNest(n, s, e);
    TopLevel(low, n, s, e);
    TopLevel(high, n, s, e);
  }

  /** For the same data, the blocks of a lower level begin those of a higher one. */
  lemma LowerIsPrefix(low: nat, high: nat, n: Identity, s: seq<Blob>, e: u16)
    requires Sized(s) && low <= high
    ensures ReplyTlvs(low, n, s, e) <= ReplyTlvs(high, n, s, e)
    ensures StreamBytes(ReplyTlvs(low, n, s, e)) <= StreamBytes(ReplyTlvs(high, n, s, e))
    ensures high >= 2 ==> StreamBytes(BeforeFirmware(n, s, e)) <= StreamBytes(ReplyTlvs(high, n, s, e))
  {
    hide ReplyTlvs, BeforeFirmware, StreamBytes;
    LowerTlvs(low, high, n, s, e);
    PrefixBytes(ReplyTlvs(low, n, s, e), ReplyTlvs(high, n, s, e));
    if high >= 2 {
      PrefixBytes(BeforeFirmware(n, s, e), ReplyTlvs(high, n, s, e));
    }
  }

  lemma TiersNest(n: Identity, s: seq<Blob>, e: u16)
    requires Sized(s)
    ensures && ReplyTlvs(0, n, s, e) <= ReplyTlvs(1, n, s, e) <= BeforeFirmware(n, s, e)
            && BeforeFirmware(n, s, e) <= ReplyTlvs(2, n, s, e) <= ReplyTlvs(3, n, s, e)
  {
    var h := WithHeartbeat(n, s, e);
    var b := BeforeFirmware(n, s, e);
    ConfigExtends(h, s, e);
    FullExtends(WithConfig(h, s, e), s, e);
    FullExtends(b, s, e);
    FullExtends(WithFullTail(b, s, e), s, e);
    hide WithHeartbeat, WithConfig, WithFullHead, WithFullTail, WithExtended;
  }

  lemma PrefixBytes(a: seq<Tlv>, b: seq<Tlv>)
    requires a <= b
    ensures StreamBytes(a) <= StreamBytes(b)
  {
    hide StreamBytes;
    assert b == a + b[|a|..];
    StreamAppend(a, b[|a|..]);
  }

  // ------------------------------------------------------------ sending a reply

  /** The size of the packet that carries a payload from one of the node's endpoints. */
  ghost function ReplySize(scope: seq<byte>, n: Identity, e: u16, payload: nat): nat {
    70 + |Path(NodeSegments(scope, n.tuid, e))| + LongSegments(NodeSegments(scope, n.tuid, e)) + payload
  }

  ghost predicate PacketFits(level: nat, scope: seq<byte>, n: Identity, s: seq<Blob>, e: u16)
    requires Sized(s)
  {
    ReplySize(scope, n, e, |StreamBytes(ReplyTlvs(level, n, s, e))|) <= MAX_UDP_PAYLOAD
  }

  /** What trying a level comes to. */
  ghost function Attempt(level: nat, scope: seq<byte>, n: Identity, s: seq<Blob>, e: u16): Status
    requires Sized(s)
  {
    if FirmwareTooLong(level, s, e) then
      if |StreamBytes(BeforeFirmware(n, s, e))| <= MAX_UDP_PAYLOAD then InvalidArg else BufferFull
    else if PacketFits(level, scope, n, s, e) then Success else BufferFull
  }

  /** Builds one reply packet around a payload. */
  method BuildReply(
    packet: PacketBuffer, scope: seq<byte>, n: Identity, e: u16, payload: seq<byte>,
    session: u32, seqNum: u32, key: Key, messageId: u16, hmac: Hmac)
    returns (r: Status)
    requires packet.Valid() && ValidScope(scope) && payload != []
    modifies packet, packet.buffer
    ensures packet.Valid()
    ensures Built(messageId, NodeSegments(scope, n.tuid, e), SenderOptions(n.tuid, e, 0, session, seqNum),
                  payload, key, hmac, r, packet.Contents())
  {
    hide EncodeOptions, Ascending, HeaderBytes, Path, PacketBytes, HmacInput, Built, UnsignedOptions, Decimal, ToHex;
    ghost var segs := NodeSegments(scope, n.tuid, e);
    NodeLength(scope, n.tuid, e);
    packet.Reset();
    r := BuildCoAPHeader(packet, messageId);
    ghost var r0, c0 := r, packet.Contents();
    var uri;
    r, uri := BuildNodeURIPathOptions(packet, scope, n.tuid, e, URI_STRING_MIN_BUFFER);
    WroteBoth([], HeaderBytes(messageId), r0, c0, EncodeOptions(PathOptions(segs), 0), r, packet.Contents());
    r := CompletePacket(packet, messageId, segs, uri, r,
                        SenderOptions(n.tuid, e, 0, session, seqNum), payload, key, hmac);
  }

  /** The packet limit decides alone: the HMAC input is always shorter than the packet. */
  lemma BuiltBySize(
    scope: seq<byte>, n: Identity, e: u16, payload: seq<byte>, o: Options, key: Key, messageId: u16, hmac: Hmac,
    r: Status, after: seq<byte>)
    requires ValidScope(scope)
    requires Built(messageId, NodeSegments(scope, n.tuid, e), o, payload, key, hmac, r, after)
    ensures r == if ReplySize(scope, n, e, |payload|) <= MAX_UDP_PAYLOAD then Success else BufferFull
    ensures forall i :: 0 <= i < |NodeSegments(scope, n.tuid, e)| ==> |NodeSegments(scope, n.tuid, e)[i]| < WRAP16
    ensures r == Success ==>
              after == PacketBytes(messageId, NodeSegments(scope, n.tuid, e), o,
                                   Sign(hmac, key, Path(NodeSegments(scope, n.tuid, e)), o, payload), payload)
  {
    hide Decimal, ToHex, Path, PacketBytes, LongSegments;
    var segs := NodeSegments(scope, n.tuid, e);
    NodeLength(scope, n.tuid, e);
    PacketSize(messageId, segs, o, Sign(hmac, key, Path(segs), o, payload), payload);
  }

  /**
   The outcome of the degrade loop: every level above the one tried last was too
   long, and none is left if that was.
   */
  ghost predicate Settled(level: nat, scope: seq<byte>, n: Identity, s: seq<Blob>, e: u16, r: Status, used: nat)
    requires Sized(s)
  {
    && used <= level && r == Attempt(used, scope, n, s, e)
    && (r == BufferFull ==> used == 0)
    && forall l :: used < l <= level ==> Attempt(l, scope, n, s, e) == BufferFull
  }

  /** Builds a poll reply, lowering the level as long as the reply is too long. */
  method SendPollReplyWithQueryLevel(
    packet: PacketBuffer, level: byte, scope: seq<byte>, n: Identity, s: seq<Blob>, e: u16,
    session: u32, seqNum: u32, key: Key, messageId: u16, hmac: Hmac)
    returns (r: Status, used: byte)
    requires packet.Valid() && ValidScope(scope) && Sized(s)
    modifies packet, packet.buffer
    ensures packet.Valid() && Settled(level, scope, n, s, e, r, used)
    ensures r == Success ==>
              var segs := NodeSegments(scope, n.tuid, e);
              var o := SenderOptions(n.tuid, e, 0, session, seqNum);
              var payload := StreamBytes(ReplyTlvs(used, n, s, e));
              && (forall i :: 0 <= i < |segs| ==> |segs[i]| < WRAP16)
              && packet.Contents() == PacketBytes(messageId, segs, o, Sign(hmac, key, Path(segs), o, payload), payload)
  {
    hide StreamBytes, ReplyTlvs, BeforeFirmware, FirmwareTooLong, Built, NodeSegments;
    hide PacketBytes, SenderOptions, Path, LongSegments;
    ghost var o := SenderOptions(n.tuid, e, 0, session, seqNum);
    var payload := new PacketBuffer();
    used := level;
    while true
      invariant packet.Valid() && payload.Valid() && fresh(payload) && fresh(payload.buffer)
      invariant used <= level && forall l :: used < l <= level ==> Attempt(l, scope, n, s, e) == BufferFull
      decreases used
    {
      r := BuildNodeQueryPayload(used, e, s, n, payload);
      if r != Success {
        if r == BufferFull && used > QUERY_HEARTBEAT {
          used := used - 1;
          continue;
        }
        return;
      }
      ReplyIsNotEmpty(used, n, s, e);
      var bytes := payload.GetBytes();
      assert bytes == StreamBytes(ReplyTlvs(used, n, s, e));
      r := BuildReply(packet, scope, n, e, bytes, session, seqNum, key, messageId, hmac);
      BuiltBySize(scope, n, e, bytes, o, key, messageId, hmac, r, packet.Contents());
      if r == Success {
        return;
      }
      if used > QUERY_HEARTBEAT {
        used := used - 1;
        continue;
      }
      return;
    }
  }

  lemma ReplyIsNotEmpty(level: nat, n: Identity, s: seq<Blob>, e: u16)
    requires Sized(s)
    ensures StreamBytes(ReplyTlvs(level, n, s, e)) != []
  {
    hide Item;
    LowerIsPrefix(0, level, n, s, e);
    hide WithConfig, WithFullHead, WithFullTail, WithExtended, BeforeFirmware;
    var h := ReplyTlvs(0, n, s, e);
    assert h[0] == PollReplyTlv(n.tuid, n.mfg, n.variant, n.changeCount);
    assert |StreamBytes(h)| >= |TlvBytes(h[0])| > 0;
  }

  // ------------------------------------------------------- where the loop ends

  lemma FirmwareIsRootOnly(e: u16)
    ensures P.IsTidAllowedForEndpoint(TID_RT_FIRMWARE_VERSION, e) <==> e == 0
  {
    assert P.TABLE[2].tid == TID_RT_FIRMWARE_VERSION;
    var i := P.IndexOf(P.TABLE, TID_RT_FIRMWARE_VERSION);
    assert 0 <= i <= 2;
  }

  lemma ItemSize(e: u16, tid: u16, value: seq<byte>, default: seq<byte>)
    requires |value| <= BLOB_MAX_BYTES && |default| <= BLOB_MAX_BYTES
    ensures |StreamBytes(Item(e, tid, value, default))| <= 4 + BLOB_MAX_BYTES
  {
    hide P.IsTidAllowedForEndpoint;
    var item := Item(e, tid, value, default);
    if item != [] {
      StreamSingle(item[0]);
    }
  }

  /** A heartbeat reply always fits, whatever the node holds. */
  lemma HeartbeatFits(scope: seq<byte>, n: Identity, s: seq<Blob>, e: u16)
    requires ValidScope(scope) && Sized(s)
    ensures Attempt(0, scope, n, s, e) == Success
  {
    var first := [PollReplyTlv(n.tuid, n.mfg, n.variant, n.changeCount)];
    var count := Item(e, TID_RT_ENDPOINT_COUNT, s[1].value, DEFAULT_ENDPOINT_COUNT);
    var mult := Item(e, TID_RT_MULT, s[5].value, DEFAULT_MULT);
    ItemSize(e, TID_RT_ENDPOINT_COUNT, s[1].value, DEFAULT_ENDPOINT_COUNT);
    ItemSize(e, TID_RT_MULT, s[5].value, DEFAULT_MULT);
    NodeLength(scope, n.tuid, e);
    StreamSingle(first[0]);
    hide Item, StreamBytes, Path, LongSegments, Decimal, ToHex;
    StreamAppend(first + count, mult);
    StreamAppend(first, count);
  }

  /**
   The degrade loop always ends with a packet at the greatest level, not above
   the one asked for, that fits, except in one case: asked for a full or extended
   reply of the root endpoint, with a version text of more than 64 bytes and
   room for everything before it, it gives up instead of trying a lower level.
   */
  lemma SettlesOnGreatestFit(
    level: nat, scope: seq<byte>, n: Identity, s: seq<Blob>, e: u16, r: Status, used: nat)
    requires ValidScope(scope) && Sized(s) && Settled(level, scope, n, s, e, r, used)
    ensures r != Success <==>
            level >= 2 && e == 0 && |FirmwareText(s[3].value)| > FIRMWARE_LIMIT
            && |StreamBytes(BeforeFirmware(n, s, e))| <= MAX_UDP_PAYLOAD
    ensures r == Success ==>
              && PacketFits(used, scope, n, s, e) && !FirmwareTooLong(used, s, e)
              && forall l :: used < l <= level ==> FirmwareTooLong(l, s, e) || !PacketFits(l, scope, n, s, e)
    ensures r != Success ==> r == InvalidArg && used == level
  {
    hide PacketFits, FirmwareText, StreamBytes, BeforeFirmware, P.IsTidAllowedForEndpoint, FirmwareTooLong, Attempt;
    HeartbeatFits(scope, n, s, e);
    AttemptCases(used, scope, n, s, e);
    AttemptCases(level, scope, n, s, e);
    forall l | used < l <= level
      ensures FirmwareTooLong(l, s, e) || !PacketFits(l, scope, n, s, e)
    {
      AttemptCases(l, scope, n, s, e);
    }
  }

  lemma AttemptCases(level: nat, scope: seq<byte>, n: Identity, s: seq<Blob>, e: u16)
    requires Sized(s)
    ensures Attempt(level, scope, n, s, e) in {Success, InvalidArg, BufferFull}
    ensures Attempt(level, scope, n, s, e) == InvalidArg <==>
            level >= 2 && e == 0 && |FirmwareText(s[3].value)| > FIRMWARE_LIMIT
            && |StreamBytes(BeforeFirmware(n, s, e))| <= MAX_UDP_PAYLOAD
    ensures Attempt(level, scope, n, s, e) == Success <==>
            PacketFits(level, scope, n, s, e) && !FirmwareTooLong(level, s, e)
  {
    hide PacketFits, FirmwareText, StreamBytes, BeforeFirmware, P.IsTidAllowedForEndpoint;
    FirmwareIsRootOnly(e);
  }

  /** A level that fits leaves every lower level fitting: there is one threshold. */
  lemma LowerFits(low: nat, high: nat, scope: seq<byte>, n: Identity, s: seq<Blob>, e: u16)
    requires Sized(s) && low <= high && PacketFits(high, scope, n, s, e)
    ensures PacketFits(low, scope, n, s, e)
  {
    hide ReplyTlvs, StreamBytes, Path, LongSegments, NodeSegments;
    LowerIsPrefix(low, high, n, s, e);
  }

  // ---------------------------------------------------------- what is reported

  /** What stands in for an empty parameter. */
  function DefaultFor(tid: u16): seq<byte> {
    if tid == TID_RT_DEVICE_LABEL then DEFAULT_DEVICE_LABEL
    else if tid == TID_RT_IDENTIFY then DEFAULT_IDENTIFY
    else if tid == TID_RT_STATUS || tid == TID_EP_STATUS then DEFAULT_STATUS
    else if tid == TID_RDM_PORT_CONFIG then DEFAULT_RDM_PORT_CONFIG
    else if tid == TID_RDM_FLOW_CONTROL then DEFAULT_RDM_FLOW_CONTROL
    else if tid == TID_EP_UNIVERSE then U16(DEFAULT_UNIVERSE)
    else if tid == TID_EP_LABEL then DEFAULT_EP_LABEL
    else if tid == TID_EP_MULT_OVERRIDE then DEFAULT_MULT_OVERRIDE
    else if tid == TID_EP_DIRECTION then DEFAULT_DIRECTION
    else if tid == TID_EP_INPUT_PRIORITY then DEFAULT_INPUT_PRIORITY
    else if tid == TID_EP_FAILOVER then DEFAULT_FAILOVER
    else if tid == TID_EP_DMX_TIMING then DEFAULT_DMX_TIMING
    else if tid == TID_EP_REFRESH_CAPABILITY then DEFAULT_REFRESH_CAPABILITY
    else if tid == TID_EP_PROTOCOL then DEFAULT_PROTOCOL
    else if tid == TID_EP_CAPABILITY then DEFAULT_CAPABILITY
    else if tid == TID_RT_ROLE_CAPABILITY then DEFAULT_ROLE_CAPABILITY
    else if tid == TID_RT_MODEL_NAME then DEFAULT_MODEL_NAME
    else if tid == TID_RT_ENDPOINT_COUNT then DEFAULT_ENDPOINT_COUNT
    else if tid == TID_RT_MULT then DEFAULT_MULT
    else if tid == TID_DG_SECURITY_EVENT then DEFAULT_SECURITY_EVENT
    else []
  }

  lemma Defaults()
    ensures && DefaultFor(TID_RT_DEVICE_LABEL) == DEFAULT_DEVICE_LABEL
            && DefaultFor(TID_RT_IDENTIFY) == DEFAULT_IDENTIFY
            && DefaultFor(TID_RT_STATUS) == DEFAULT_STATUS
            && DefaultFor(TID_EP_STATUS) == DEFAULT_STATUS
            && DefaultFor(TID_RDM_PORT_CONFIG) == DEFAULT_RDM_PORT_CONFIG
            && DefaultFor(TID_RDM_FLOW_CONTROL) == DEFAULT_RDM_FLOW_CONTROL
            && DefaultFor(TID_EP_UNIVERSE) == U16(DEFAULT_UNIVERSE)
            && DefaultFor(TID_EP_LABEL) == DEFAULT_EP_LABEL
            && DefaultFor(TID_EP_MULT_OVERRIDE) == DEFAULT_MULT_OVERRIDE
            && DefaultFor(TID_EP_DIRECTION) == DEFAULT_DIRECTION
            && DefaultFor(TID_EP_INPUT_PRIORITY) == DEFAULT_INPUT_PRIORITY
            && DefaultFor(TID_EP_FAILOVER) == DEFAULT_FAILOVER
            && DefaultFor(TID_EP_DMX_TIMING) == DEFAULT_DMX_TIMING
            && DefaultFor(TID_EP_REFRESH_CAPABILITY) == DEFAULT_REFRESH_CAPABILITY
            && DefaultFor(TID_EP_PROTOCOL) == DEFAULT_PROTOCOL
            && DefaultFor(TID_EP_CAPABILITY) == DEFAULT_CAPABILITY
            && DefaultFor(TID_RT_ROLE_CAPABILITY) == DEFAULT_ROLE_CAPABILITY
            && DefaultFor(TID_RT_MODEL_NAME) == DEFAULT_MODEL_NAME
            && DefaultFor(TID_RT_ENDPOINT_COUNT) == DEFAULT_ENDPOINT_COUNT
            && DefaultFor(TID_RT_MULT) == DEFAULT_MULT
            && DefaultFor(TID_DG_SECURITY_EVENT) == DEFAULT_SECURITY_EVENT
  {
  }

  function Either(value: seq<byte>, default: seq<byte>): seq<byte> {
    if value != [] then value else default
  }

  /** What a block of a TID must say, by the node's own lookup of it. */
  function Reported(n: Identity, s: seq<Blob>, tid: u16): seq<byte>
    requires |s| == SLOTS
  {
    var i := SlotOf(tid);
    var held := if 0 <= i < SLOTS then s[i].value else [];
    if tid == TID_POLL_REPLY then PollReplyTlv(n.tuid, n.mfg, n.variant, n.changeCount).value
    else if tid == TID_RT_FIRMWARE_VERSION then FirmwareValue(held)
    else if tid == TID_RT_PROTOCOL_VERSION then Either(FirstByte(held), DEFAULT_PROTOCOL_VERSION)
    else Either(held, DefaultFor(tid))
  }

  ghost predicate AllTruthful(n: Identity, s: seq<Blob>, ts: seq<Tlv>)
    requires |s| == SLOTS
  {
    forall t :: t in ts ==> t.value == Reported(n, s, t.tid)
  }

  lemma AddBlock(n: Identity, s: seq<Blob>, base: seq<Tlv>, e: u16, tid: u16, value: seq<byte>, default: seq<byte>)
    returns (r: seq<Tlv>)
    requires |s| == SLOTS && |value| < WRAP16 && |default| < WRAP16
    requires AllTruthful(n, s, base) && Either(value, default) == Reported(n, s, tid)
    ensures r == base + Item(e, tid, value, default) && AllTruthful(n, s, r)
  {
    hide P.IsTidAllowedForEndpoint, Reported;
    r := base + Item(e, tid, value, default);
  }

  lemma AddTruthful(n: Identity, s: seq<Blob>, base: seq<Tlv>, e: u16, tid: u16, i: nat, default: seq<byte>)
    returns (r: seq<Tlv>)
    requires Sized(s) && |SLOT_TIDS| == SLOTS && i < SLOTS && Searched(i) && SLOT_TIDS[i] == tid
    requires tid != TID_POLL_REPLY && tid != TID_RT_FIRMWARE_VERSION && tid != TID_RT_PROTOCOL_VERSION
    requires default == DefaultFor(tid) || s[i].value != []
    requires |default| < WRAP16 && AllTruthful(n, s, base)
    ensures r == base + Item(e, tid, s[i].value, default) && AllTruthful(n, s, r)
  {
    SlotOfLabel(i);
    hide SlotOf, DefaultFor, AllTruthful, SLOT_TIDS;
    r := AddBlock(n, s, base, e, tid, s[i].value, default);
  }

  lemma ConfigIsTruthful(n: Identity, base: seq<Tlv>, s: seq<Blob>, e: u16)
    requires Sized(s) && AllTruthful(n, s, base)
    ensures AllTruthful(n, s, WithConfig(base, s, e))
  {
    RootSlots();
    DataSlots();
    Defaults();
    hide SLOT_TIDS, Item, AllTruthful, DefaultFor;
    var r := base;
    r := AddTruthful(n, s, r, e, TID_RT_DEVICE_LABEL, 4, DEFAULT_DEVICE_LABEL);
    r := AddTruthful(n, s, r, e, TID_RT_IDENTIFY, 6, DEFAULT_IDENTIFY);
    r := AddTruthful(n, s, r, e, TID_RT_STATUS, 7, DEFAULT_STATUS);
    r := AddTruthful(n, s, r, e, TID_RDM_PORT_CONFIG, 37, DEFAULT_RDM_PORT_CONFIG);
    r := AddTruthful(n, s, r, e, TID_RDM_FLOW_CONTROL, 39, DEFAULT_RDM_FLOW_CONTROL);
    r := AddTruthful(n, s, r, e, TID_EP_UNIVERSE, 26, U16(DEFAULT_UNIVERSE));
    r := AddTruthful(n, s, r, e, TID_EP_LABEL, 27, DEFAULT_EP_LABEL);
    r := AddTruthful(n, s, r, e, TID_EP_MULT_OVERRIDE, 28, DEFAULT_MULT_OVERRIDE);
    r := AddTruthful(n, s, r, e, TID_EP_DIRECTION, 30, DEFAULT_DIRECTION);
    r := AddTruthful(n, s, r, e, TID_EP_INPUT_PRIORITY, 31, DEFAULT_INPUT_PRIORITY);
    r := AddTruthful(n, s, r, e, TID_EP_STATUS, 32, DEFAULT_STATUS);
    r := AddTruthful(n, s, r, e, TID_EP_FAILOVER, 33, DEFAULT_FAILOVER);
    r := AddTruthful(n, s, r, e, TID_EP_DMX_TIMING, 34, DEFAULT_DMX_TIMING);
    r := AddTruthful(n, s, r, e, TID_EP_REFRESH_CAPABILITY, 35, DEFAULT_REFRESH_CAPABILITY);
    r := AddTruthful(n, s, r, e, TID_EP_PROTOCOL, 36, DEFAULT_PROTOCOL);
    r := AddTruthful(n, s, r, e, TID_EP_CAPABILITY, 29, DEFAULT_CAPABILITY);
  }

  /** The two version blocks, which do not report their parameters as they are held. */
  lemma VersionsAreTruthful(n: Identity, base: seq<Tlv>, s: seq<Blob>, e: u16) returns (r: seq<Tlv>)
    requires Sized(s) && AllTruthful(n, s, base)
    ensures |FirmwareValue(s[3].value)| < WRAP16
    ensures r == base + Item(e, TID_RT_PROTOCOL_VERSION, FirstByte(s[2].value), DEFAULT_PROTOCOL_VERSION)
                 + Item(e, TID_RT_FIRMWARE_VERSION, FirmwareValue(s[3].value), [])
    ensures AllTruthful(n, s, r)
  {
    VersionSlots();
    FirmwareShorter(s[3].value);
    SlotOfLabel(2);
    SlotOfLabel(3);
    assert FirmwareValue(s[3].value) != [];
    hide SLOT_TIDS, SlotOf, FirmwareValue, AllTruthful, Item;
    r := AddBlock(n, s, base, e, TID_RT_PROTOCOL_VERSION, FirstByte(s[2].value), DEFAULT_PROTOCOL_VERSION);
    r := AddBlock(n, s, r, e, TID_RT_FIRMWARE_VERSION, FirmwareValue(s[3].value), []);
  }

  lemma FullIsTruthful(n: Identity, base: seq<Tlv>, s: seq<Blob>, e: u16)
    requires Sized(s) && AllTruthful(n, s, base)
    ensures AllTruthful(n, s, WithFullTail(WithFullHead(base, s, e), s, e))
  {
    FirstSlot(0);
    FullSlots();
    DataSlots();
    FirmwareShorter(s[3].value);
    Defaults();
    hide SLOT_TIDS, FirmwareValue, Item, AllTruthful, DefaultFor;
    var r := base;
    if s[0].value != [] {
      r := AddTruthful(n, s, r, e, TID_RT_SUPPORTED_TIDS, 0, []);
    }
    r := VersionsAreTruthful(n, r, s, e);
    r := AddTruthful(n, s, r, e, TID_RT_ROLE_CAPABILITY, 8, DEFAULT_ROLE_CAPABILITY);
    r := AddTruthful(n, s, r, e, TID_RT_MODEL_NAME, 10, DEFAULT_MODEL_NAME);
    r := AddTruthful(n, s, r, e, TID_EP_CAPABILITY, 29, DEFAULT_CAPABILITY);
  }

  /**
   The two versions as reported: the held protocol version's first byte, or 1; the
   held firmware number widened to 32 bits and its text up to the first zero byte,
   or number 1 and the default text.
   */
  lemma ReportedVersions(n: Identity, s: seq<Blob>)
    requires |s| == SLOTS == |SLOT_TIDS|
    ensures Reported(n, s, TID_RT_PROTOCOL_VERSION) == [if s[2].value != [] then s[2].value[0] else 0x01]
    ensures Reported(n, s, TID_RT_FIRMWARE_VERSION)
         == if |s[3].value| >= 2 then [0x00, 0x00, s[3].value[0], s[3].value[1]] + CString(s[3].value[2..])
            else [0x00, 0x00, 0x00, 0x01] + Ascii("v1.08 Spec")
  {
    VersionSlots();
    SlotOfLabel(2);
    SlotOfLabel(3);
    hide SLOT_TIDS, SlotOf, CString;
    var v, w := s[2].value, s[3].value;
    assert FirstByte(v) == if v != [] then [v[0]] else [];
    if |w| >= 2 {
      BigEndian(0, 0, w[0], w[1]);
    }
  }

  /**
   At every level, every block says what the node's own lookup of its TID finds,
   or the TID's default if that is empty; the protocol version is cut to one
   byte, and the firmware version is widened as its encoder does.
   */
  lemma ReplyIsTruthful(level: nat, n: Identity, s: seq<Blob>, e: u16)
    requires Sized(s)
    ensures AllTruthful(n, s, ReplyTlvs(level, n, s, e))
  {
    RootSlots();
    FullSlots();
    var r := [PollReplyTlv(n.tuid, n.mfg, n.variant, n.changeCount)];
    assert AllTruthful(n, s, r) by {
      hide SlotOf;
    }
    Defaults();
    hide SLOT_TIDS, Item, WithConfig, WithFullHead, WithFullTail, AllTruthful, DefaultFor, PollReplyTlv;
    r := AddTruthful(n, s, r, e, TID_RT_ENDPOINT_COUNT, 1, DEFAULT_ENDPOINT_COUNT);
    r := AddTruthful(n, s, r, e, TID_RT_MULT, 5, DEFAULT_MULT);
    ConfigIsTruthful(n, r, s, e);
    FullIsTruthful(n, WithConfig(r, s, e), s, e);
    var f := WithFullTail(BeforeFirmware(n, s, e), s, e);
    var x := AddTruthful(n, s, f, e, TID_DG_SECURITY_EVENT, 24, DEFAULT_SECURITY_EVENT);
  }
}
