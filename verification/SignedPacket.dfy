/**
 Whole packets: the three builders, the receiver's extraction and HMAC check,
 and the theorems that tie them together.
 */
module SignedPacket {
  import opened Bytes
  import opened Freshness
  import opened PacketIO
  import opened CoapOption
  import opened CoapWalk
  import opened Text
  import opened UriPath
  import opened Lanes
  import opened SigNetOptions
  import opened Tids
  import opened TlvStream
  import opened PacketHead

  const HMAC_BUFFER: nat := 1400

  // ----------------------------------------------------------------- building

  /** The digest of a packet. */
  function Sign(hmac: Hmac, key: Key, uri: seq<byte>, o: Options, payload: seq<byte>): Digest {
    hmac(key, HmacInput(uri, o, payload))
  }

  /** All options of a packet, in order. */
  function AllOptions(segs: seq<seq<byte>>, o: Options, d: Digest): seq<Opt>
    requires forall i :: 0 <= i < |segs| ==> |segs[i]| < WRAP16
  {
    PathOptions(segs) + UnsignedOptions(o) + [HmacOption(d)]
  }

  lemma AllAscend(segs: seq<seq<byte>>, o: Options, d: Digest)
    requires forall i :: 0 <= i < |segs| ==> |segs[i]| < WRAP16
    ensures Ascending(AllOptions(segs, o, d), 0)
    ensures Ascending(PathOptions(segs), 0) && Ascending(PathOptions(segs) + UnsignedOptions(o), 0)
    ensures LastNumber(PathOptions(segs) + UnsignedOptions(o), 0) == OPTION_SEQ_NUM
  {
    hide U16, U32;
    PathAscends(PathOptions(segs), 0);
    var u := UnsignedOptions(o);
    UnsignedAscend(o, LastNumber(PathOptions(segs), 0));
    AscendingAppend(PathOptions(segs), u, 0);
    var all := PathOptions(segs) + u;
    assert all[|all| - 1] == u[4];
    assert [HmacOption(d)][1..] == [];
    assert Ascending([HmacOption(d)], OPTION_SEQ_NUM);
    AscendingAppend(all, [HmacOption(d)], 0);
  }

  lemma UnsignedAscend(o: Options, prev: u16)
    requires prev <= OPTION_SECURITY_MODE
    ensures Ascending(UnsignedOptions(o), prev)
  {
    hide U16, U32;
    var u := UnsignedOptions(o);
    assert u[1..][1..] == u[2..] && u[2..][1..] == u[3..] && u[3..][1..] == u[4..] && u[4..][1..] == [];
    assert Ascending([], u[4].number);
    assert Ascending(u[4..], u[3].number);
    assert Ascending(u[3..], u[2].number);
    assert Ascending(u[2..], u[1].number);
    assert Ascending(u[1..], u[0].number);
  }

  /** A signed packet with a payload. */
  ghost function PacketBytes(messageId: u16, segs: seq<seq<byte>>, o: Options, d: Digest, payload: seq<byte>): seq<byte>
    requires forall i :: 0 <= i < |segs| ==> |segs[i]| < WRAP16
  {
    AllAscend(segs, o, d);
    HeaderBytes(messageId) + EncodeOptions(AllOptions(segs, o, d), 0) + ([PAYLOAD_MARKER] + payload)
  }

  /** Computes the HMAC, stores it in the options and writes it as the last option. */
  method CalculateAndEncodeHMAC(
    buffer: PacketBuffer, uri: seq<byte>, o: Options, payload: seq<byte>, key: Key, prev: u16, hmac: Hmac)
    returns (r: Status, signed: Options)
    requires buffer.Valid() && prev <= OPTION_HMAC
    modifies buffer, buffer.buffer
    ensures buffer.Valid()
    ensures |HmacInput(uri, o, payload)| > HMAC_BUFFER ==>
              r == BufferFull && buffer.Contents() == old(buffer.Contents())
    ensures |HmacInput(uri, o, payload)| <= HMAC_BUFFER ==>
              var d := Sign(hmac, key, uri, o, payload);
              && signed == o.(hmac := d)
              && Wrote(old(buffer.Contents()), OptionBytes(OPTION_HMAC - prev, d), r, buffer.Contents())
  {
    hide OptionBytes, HmacInput, Wrote;
    var input := new byte[HMAC_BUFFER];
    var length;
    r, length := BuildHMACInput(uri, o, payload, input);
    if r != Success {
      return r, o;
    }
    signed := o.(hmac := hmac(key, input[..length]));
    r := EncodeCoAPOption(buffer, OPTION_HMAC, prev, signed.hmac);
  }

  /** Signs a packet and appends the payload marker and the payload; an empty payload gets no marker. */
  method FinalizePacketWithHMACAndPayload(
    buffer: PacketBuffer, uri: seq<byte>, o: Options, payload: seq<byte>, key: Key, hmac: Hmac)
    returns (r: Status)
    requires buffer.Valid()
    modifies buffer, buffer.buffer
    ensures buffer.Valid()
    ensures |HmacInput(uri, o, payload)| > HMAC_BUFFER ==>
              r == BufferFull && buffer.Contents() == old(buffer.Contents())
    ensures |HmacInput(uri, o, payload)| <= HMAC_BUFFER ==>
              var option := OptionBytes(OPTION_HMAC - OPTION_SEQ_NUM, Sign(hmac, key, uri, o, payload));
              var tail := if payload == [] then [] else [PAYLOAD_MARKER] + payload;
              Wrote(old(buffer.Contents()), option + tail, r, buffer.Contents())
  {
    hide OptionBytes, HmacInput;
    ghost var before := buffer.Contents();
    ghost var option := OptionBytes(OPTION_HMAC - OPTION_SEQ_NUM, Sign(hmac, key, uri, o, payload));
    var signed;
    r, signed := CalculateAndEncodeHMAC(buffer, uri, o, payload, key, OPTION_SEQ_NUM, hmac);
    if |HmacInput(uri, o, payload)| > HMAC_BUFFER {
      return;
    }
    ghost var r0, c0 := r, buffer.Contents();
    if r == Success && payload != [] {
      r := buffer.WriteByte(PAYLOAD_MARKER);
    }
    ghost var marker := if payload == [] then [] else [PAYLOAD_MARKER];
    WroteBoth(before, option, r0, c0, marker, r, buffer.Contents());
    ghost var r1, c1 := r, buffer.Contents();
    if r == Success && payload != [] {
      r := buffer.WriteBytes(payload);
    }
    WroteBoth(before, option + marker, r1, c1, payload, r, buffer.Contents());
    Assoc(option, marker, payload);
  }

  /** Options common to all packets a sender builds. */
  function SenderOptions(tuid: Tuid, endpoint: u16, mfg: u16, session: u32, seqNum: u32): Options {
    Options(MODE_HMAC_SHA256, SenderIdOf(tuid, endpoint), mfg, session, seqNum, 0, NO_DIGEST)
  }

  /** What a builder leaves in its buffer: the signed packet, or BufferFull if it is too long for either buffer. */
  ghost predicate Built(
    messageId: u16, segs: seq<seq<byte>>, o: Options, payload: seq<byte>, key: Key, hmac: Hmac, r: Status,
    after: seq<byte>)
  {
    && (forall i :: 0 <= i < |segs| ==> |segs[i]| < WRAP16)
    && var d := Sign(hmac, key, Path(segs), o, payload);
       var packet := PacketBytes(messageId, segs, o, d, payload);
       if |packet| <= MAX_UDP_PAYLOAD && |HmacInput(Path(segs), o, payload)| <= HMAC_BUFFER
       then r == Success && after == packet
       else r == BufferFull
  }

  /** The options, signature, marker and payload after a header and a path, as every builder writes them. */
  method CompletePacket(
    buffer: PacketBuffer, ghost messageId: u16, ghost segs: seq<seq<byte>>, uri: seq<byte>, r0: Status,
    o: Options, payload: seq<byte>, key: Key, hmac: Hmac)
    returns (r: Status)
    requires buffer.Valid() && payload != [] && segs != []
    requires forall i :: 0 <= i < |segs| ==> |segs[i]| < WRAP16
    requires uri == Path(segs)
    requires Ascending(PathOptions(segs), 0)
    requires Wrote([], HeaderBytes(messageId) + EncodeOptions(PathOptions(segs), 0), r0, buffer.Contents())
    modifies buffer, buffer.buffer
    ensures buffer.Valid() && Built(messageId, segs, o, payload, key, hmac, r, buffer.Contents())
  {
    hide OptionBytes, HmacInput, EncodeOptions, Ascending, HeaderBytes, Path, UnsignedOptions;
    AllAscend(segs, o, Sign(hmac, key, uri, o, payload));
    ghost var head := HeaderBytes(messageId) + EncodeOptions(PathOptions(segs), 0);
    PathAscends(PathOptions(segs), 0);
    UnsignedAscend(o, OPTION_URI_PATH);
    ghost var options := EncodeOptions(UnsignedOptions(o), OPTION_URI_PATH);
    ghost var c0 := buffer.Contents();
    r := r0;
    if r == Success {
      r := BuildSigNetOptionsWithoutHMAC(buffer, o, OPTION_URI_PATH);
    }
    WroteBoth([], head, r0, c0, options, r, buffer.Contents());
    ghost var r1, c1 := r, buffer.Contents();
    if r == Success {
      r := FinalizePacketWithHMACAndPayload(buffer, uri, o, payload, key, hmac);
    }
    PacketParts(messageId, segs, o, Sign(hmac, key, uri, o, payload), payload);
  }

  lemma PacketParts(messageId: u16, segs: seq<seq<byte>>, o: Options, d: Digest, payload: seq<byte>)
    requires segs != [] && forall i :: 0 <= i < |segs| ==> |segs[i]| < WRAP16
    ensures Ascending(PathOptions(segs), 0) && Ascending(UnsignedOptions(o), OPTION_URI_PATH)
    ensures PacketBytes(messageId, segs, o, d, payload)
         == HeaderBytes(messageId) + EncodeOptions(PathOptions(segs), 0)
            + EncodeOptions(UnsignedOptions(o), OPTION_URI_PATH)
            + (OptionBytes(OPTION_HMAC - OPTION_SEQ_NUM, d) + ([PAYLOAD_MARKER] + payload))
  {
    hide OptionBytes, EncodeOptions, Ascending, HeaderBytes, UnsignedOptions;
    AllAscend(segs, o, d);
    PathAscends(PathOptions(segs), 0);
    UnsignedAscend(o, OPTION_URI_PATH);
    EncodeAppend(PathOptions(segs), UnsignedOptions(o), 0);
    EncodeNext(PathOptions(segs) + UnsignedOptions(o), HmacOption(d), 0);
    var h, p := HeaderBytes(messageId), EncodeOptions(PathOptions(segs), 0);
    var u := EncodeOptions(UnsignedOptions(o), OPTION_URI_PATH);
    var m, t := OptionBytes(OPTION_HMAC - OPTION_SEQ_NUM, d), [PAYLOAD_MARKER] + payload;
    assert h + (p + u + m) + t == h + p + u + (m + t);
  }

  /** Builds a DMX level packet. */
  method BuildDMXPacket(
    buffer: PacketBuffer, scope: seq<byte>, universe: nat, dmx: seq<byte>, tuid: Tuid, endpoint: u16, mfg: u16,
    session: u32, seqNum: u32, key: Key, messageId: u16, hmac: Hmac)
    returns (r: Status)
    requires buffer.Valid() && ValidScope(scope)
    modifies buffer, buffer.buffer
    ensures buffer.Valid()
    ensures !(MIN_UNIVERSE <= universe <= MAX_UNIVERSE) || !(1 <= |dmx| <= MAX_DMX_SLOTS) ==>
              r == InvalidArg && buffer.Contents() == old(buffer.Contents())
    ensures MIN_UNIVERSE <= universe <= MAX_UNIVERSE && 1 <= |dmx| <= MAX_DMX_SLOTS ==>
              Built(messageId, LevelSegments(scope, universe), SenderOptions(tuid, endpoint, mfg, session, seqNum),
                    TlvBytes(Tlv(TID_LEVEL, dmx)), key, hmac, r, buffer.Contents())
  {
    if universe < MIN_UNIVERSE || universe > MAX_UNIVERSE {
      return InvalidArg;
    }
    if |dmx| < 1 || |dmx| > MAX_DMX_SLOTS {
      return InvalidArg;
    }
    hide EncodeOptions, Ascending, HeaderBytes, Path, Decimal, PacketBytes, HmacInput, Built, UnsignedOptions;
    DecimalLength(universe);
    ghost var segs := LevelSegments(scope, universe);
    buffer.Reset();
    r := BuildCoAPHeader(buffer, messageId);
    ghost var r0, c0 := r, buffer.Contents();
    r := BuildURIPathOptions(buffer, scope, universe);
    WroteBoth([], HeaderBytes(messageId), r0, c0, EncodeOptions(PathOptions(segs), 0), r, buffer.Contents());
    var payload := new PacketBuffer();
    var r2 := EncodeTLV(payload, Tlv(TID_LEVEL, dmx));
    var bytes := payload.GetBytes();
    assert bytes == TlvBytes(Tlv(TID_LEVEL, dmx));
    LevelLength(scope, universe);
    var r3, uri := BuildURIString(scope, universe, URI_STRING_MIN_BUFFER);
    r := CompletePacket(
      buffer, messageId, segs, uri, r, SenderOptions(tuid, endpoint, mfg, session, seqNum), bytes, key, hmac);
  }

  /** Builds a manager's poll. Its options carry manufacturer code 0; the manager's own codes are in the TLV. */
  method BuildPollPacket(
    buffer: PacketBuffer, scope: seq<byte>, manager: Tuid, mfg: u16, variant: u16, lo: Tuid, hi: Tuid, endpoint: u16,
    level: byte, session: u32, seqNum: u32, key: Key, messageId: u16, hmac: Hmac)
    returns (r: Status)
    requires buffer.Valid() && ValidScope(scope)
    modifies buffer, buffer.buffer
    ensures buffer.Valid()
    ensures level > QUERY_EXTENDED ==> r == InvalidArg && buffer.Contents() == old(buffer.Contents())
    ensures level <= QUERY_EXTENDED ==>
              Built(messageId, PollSegments(scope), SenderOptions(manager, 0, 0, session, seqNum),
                    TlvBytes(PollTlv(manager, mfg, variant, lo, hi, endpoint, level)), key, hmac, r, buffer.Contents())
  {
    if level > QUERY_EXTENDED {
      return InvalidArg;
    }
    hide EncodeOptions, Ascending, HeaderBytes, Path, PacketBytes, HmacInput, Built, UnsignedOptions;
    ghost var segs := PollSegments(scope);
    PollLength(scope);
    buffer.Reset();
    r := BuildCoAPHeader(buffer, messageId);
    ghost var r0, c0 := r, buffer.Contents();
    var uri;
    r, uri := BuildPollURIPathOptions(buffer, scope, URI_STRING_MIN_BUFFER);
    WroteBoth([], HeaderBytes(messageId), r0, c0, EncodeOptions(PathOptions(segs), 0), r, buffer.Contents());
    var payload := new PacketBuffer();
    var r2 := EncodeTidPoll(payload, manager, mfg, variant, lo, hi, endpoint, level);
    var bytes := payload.GetBytes();
    assert bytes == TlvBytes(PollTlv(manager, mfg, variant, lo, hi, endpoint, level));
    r := CompletePacket(buffer, messageId, segs, uri, r,
                        SenderOptions(manager, 0, 0, session, seqNum), bytes, key, hmac);
  }

  /** Builds a start-up announcement for the root endpoint. */
  method BuildAnnouncePacket(
    buffer: PacketBuffer, scope: seq<byte>, tuid: Tuid, mfg: u16, variant: u16, version: byte, roles: byte,
    changeCount: u16, session: u32, seqNum: u32, key: Key, messageId: u16, hmac: Hmac)
    returns (r: Status)
    requires buffer.Valid() && ValidScope(scope)
    modifies buffer, buffer.buffer
    ensures buffer.Valid()
    ensures Built(messageId, NodeSegments(scope, tuid, 0), SenderOptions(tuid, 0, mfg, session, seqNum),
                  StreamBytes(AnnounceTlvs(tuid, mfg, variant, version, roles, changeCount)),
                  key, hmac, r, buffer.Contents())
  {
    hide EncodeOptions, Ascending, HeaderBytes, Path, PacketBytes, HmacInput, Built, UnsignedOptions, Decimal, ToHex;
    hide StreamBytes, AnnounceTlvs;
    ghost var segs := NodeSegments(scope, tuid, 0);
    NodeLength(scope, tuid, 0);
    buffer.Reset();
    r := BuildCoAPHeader(buffer, messageId);
    ghost var r0, c0 := r, buffer.Contents();
    var uri;
    r, uri := BuildNodeURIPathOptions(buffer, scope, tuid, 0, URI_STRING_MIN_BUFFER);
    WroteBoth([], HeaderBytes(messageId), r0, c0, EncodeOptions(PathOptions(segs), 0), r, buffer.Contents());
    var payload := new PacketBuffer();
    var r2 := BuildStartupAnnouncePayload(payload, tuid, mfg, variant, version, roles, changeCount);
    var bytes := payload.GetBytes();
    AnnounceUnfolds(tuid, mfg, variant, version, roles, changeCount);
    r := CompletePacket(buffer, messageId, segs, uri, r,
                        SenderOptions(tuid, 0, mfg, session, seqNum), bytes, key, hmac);
  }

  // --------------------------------------------------------------------- size

  /** The bytes a path takes as text, and as options: one or two more per segment. */
  lemma {:induction false} PathSize(segs: seq<seq<byte>>, prev: u16)
    requires forall i :: 0 <= i < |segs| ==> |segs[i]| < EXT16_BASE
    requires prev == 0 || prev == OPTION_URI_PATH
    ensures Ascending(PathOptions(segs), prev)
    ensures |EncodeOptions(PathOptions(segs), prev)| == |Path(segs)| + LongSegments(segs)
    decreases |segs|
  {
    hide OptionBytes, Ascending;
    PathAscends(PathOptions(segs), prev);
    if segs != [] {
      hide EncodeOptions, Path;
      PathSize(segs[1..], OPTION_URI_PATH);
      PathFirst(segs);
      assert PathOptions(segs)[1..] == PathOptions(segs[1..]);
      OptionSize(OPTION_URI_PATH - prev, segs[0]);
      FirstOption(PathOptions(segs), 0, prev);
    }
  }

  lemma OptionSize(delta: u16, value: OptionValue)
    ensures |OptionBytes(delta, value)| == 1 + |Extension(delta)| + |Extension(|value|)| + |value|
  {
  }

  /** How many segments need an extension byte for their length. */
  function LongSegments(segs: seq<seq<byte>>): nat {
    if segs == [] then 0 else (if |segs[0]| > INLINE_MAX then 1 else 0) + LongSegments(segs[1..])
  }

  lemma UnsignedSize(o: Options)
    ensures Ascending(UnsignedOptions(o), OPTION_URI_PATH)
    ensures |EncodeOptions(UnsignedOptions(o), OPTION_URI_PATH)| == 30
  {
    hide OptionBytes, EncodeOptions, U16, U32, Ascending;
    UnsignedAscend(o, OPTION_URI_PATH);
    var u := UnsignedOptions(o);
    SizeOfRest(u, 0, OPTION_URI_PATH);
    SizeOfRest(u, 1, u[0].number);
    SizeOfRest(u, 2, u[1].number);
    SizeOfRest(u, 3, u[2].number);
    SizeOfRest(u, 4, u[3].number);
    assert u[0..] == u && u[5..] == [];
    EncodeNothing(u[4].number);
  }

  lemma EncodeNothing(prev: u16)
    ensures Ascending([], prev) && EncodeOptions([], prev) == []
  {
  }

  lemma SizeOfRest(u: seq<Opt>, k: nat, prev: u16)
    requires k < |u| && Ascending(u[k..], prev)
    ensures prev <= u[k].number && Ascending(u[k + 1..], u[k].number)
    ensures |EncodeOptions(u[k..], prev)|
         == 1 + |Extension(u[k].number - prev)| + |Extension(|u[k].value|)| + |u[k].value|
            + |EncodeOptions(u[k + 1..], u[k].number)|
  {
    FirstOption(u[k..], 0, prev);
    assert u[k..][1..] == u[k + 1..];
    OptionSize(u[k].number - prev, u[k].value);
  }

  /** The exact size of a signed packet: 70 bytes beyond its path and its payload, one more per long segment. */
  lemma PacketSize(messageId: u16, segs: seq<seq<byte>>, o: Options, d: Digest, payload: seq<byte>)
    requires segs != [] && forall i :: 0 <= i < |segs| ==> |segs[i]| < EXT16_BASE
    ensures |PacketBytes(messageId, segs, o, d, payload)| == 70 + |Path(segs)| + LongSegments(segs) + |payload|
  {
    hide OptionBytes, EncodeOptions, Ascending, PacketBytes, UnsignedOptions, Path, LongSegments;
    PacketParts(messageId, segs, o, d, payload);
    PathSize(segs, 0);
    UnsignedSize(o);
    OptionSize(OPTION_HMAC - OPTION_SEQ_NUM, d);
  }

  lemma LevelLength(scope: seq<byte>, universe: nat)
    requires ValidScope(scope) && universe < WRAP16
    ensures var segs := LevelSegments(scope, universe);
            && |Path(segs)| == 19 + |scope| + |Decimal(universe)|
            && LongSegments(segs) == (if |scope| > INLINE_MAX then 1 else 0)
            && |Decimal(universe)| <= 5
  {
    hide Decimal;
    DecimalLength(universe);
    var segs := LevelSegments(scope, universe);
    PathLengths(segs, 0);
    PathLengths(segs, 1);
    PathLengths(segs, 2);
    PathLengths(segs, 3);
    PathLengths(segs, 4);
    assert segs[0..] == segs && segs[5..] == [];
  }

  lemma PollLength(scope: seq<byte>)
    requires ValidScope(scope)
    ensures var segs := PollSegments(scope);
            && |Path(segs)| == 17 + |scope|
            && LongSegments(segs) == (if |scope| > INLINE_MAX then 1 else 0)
  {
    var segs := PollSegments(scope);
    PathLengths(segs, 0);
    PathLengths(segs, 1);
    PathLengths(segs, 2);
    PathLengths(segs, 3);
    assert segs[0..] == segs && segs[4..] == [];
  }

  lemma NodeLength(scope: seq<byte>, tuid: Tuid, endpoint: u16)
    requires ValidScope(scope)
    ensures var segs := NodeSegments(scope, tuid, endpoint);
            && |Path(segs)| == 31 + |scope| + |Decimal(endpoint)|
            && LongSegments(segs) == (if |scope| > INLINE_MAX then 1 else 0)
            && |Decimal(endpoint)| <= 5
  {
    hide Decimal, ToHex;
    DecimalLength(endpoint);
    var segs := NodeSegments(scope, tuid, endpoint);
    PathLengths(segs, 0);
    PathLengths(segs, 1);
    PathLengths(segs, 2);
    PathLengths(segs, 3);
    PathLengths(segs, 4);
    PathLengths(segs, 5);
    assert segs[0..] == segs && segs[6..] == [];
  }

  lemma PathLengths(segs: seq<seq<byte>>, k: nat)
    requires k < |segs|
    ensures |Path(segs[k..])| == 1 + |segs[k]| + |Path(segs[k + 1..])|
    ensures LongSegments(segs[k..]) == (if |segs[k]| > INLINE_MAX then 1 else 0) + LongSegments(segs[k + 1..])
    ensures Path([]) == [] && LongSegments([]) == 0
  {
    assert segs[k..][1..] == segs[k + 1..];
  }

  /**
   Every valid DMX packet is built: it has exactly this size, at most 643
   bytes, so neither the packet buffer nor the HMAC buffer can overflow, and its
   URI fits the builders' 96-byte and the receiver's 128-byte buffer.
   */
  lemma DmxPacketFits(
    scope: seq<byte>, universe: nat, dmx: seq<byte>, o: Options, messageId: u16, key: Key, hmac: Hmac,
    r: Status, after: seq<byte>)
    requires ValidScope(scope) && MIN_UNIVERSE <= universe <= MAX_UNIVERSE && 1 <= |dmx| <= MAX_DMX_SLOTS
    requires Built(messageId, LevelSegments(scope, universe), o, TlvBytes(Tlv(TID_LEVEL, dmx)), key, hmac, r, after)
    ensures r == Success
    ensures |after| == 93 + |scope| + (if |scope| > INLINE_MAX then 1 else 0) + |Decimal(universe)| + |dmx| <= 643
    ensures |Path(LevelSegments(scope, universe))| < URI_STRING_MIN_BUFFER
  {
    hide Decimal, Path, PacketBytes, LongSegments, TlvBytes;
    var segs, payload := LevelSegments(scope, universe), TlvBytes(Tlv(TID_LEVEL, dmx));
    LevelLength(scope, universe);
    PacketSize(messageId, segs, o, Sign(hmac, key, Path(segs), o, payload), payload);
  }
}
