/**
 The receiver's side of a packet: the URI rebuilt from Uri-Path options, the
 extraction of options and payload, and the HMAC check; and the theorem that
 what the builders send is exactly what the receiver extracts and verifies.
 */
module Receive {
  import opened Bytes
  import opened Freshness
  import opened PacketIO
  import opened CoapOption
  import opened CoapWalk
  import opened Text
  import opened UriPath
  import opened Lanes
  import opened SigNetOptions
  import opened Tids
  import opened TlvStream
  import opened PacketHead
  import opened SignedPacket

  /** A URI under construction: out of room, settled by an option past Uri-Path, or still growing. */
  datatype UriScan = NoRoom | Settled(uri: seq<byte>) | Growing(uri: seq<byte>)

  /** Joins the Uri-Path options with slashes; `first` says that no segment has been seen. */
  function ScanUri(opts: seq<Opt>, uri: seq<byte>, first: bool, capacity: nat): UriScan
    decreases |opts|
  {
    if opts == [] then Growing(uri)
    else if opts[0].number == OPTION_URI_PATH then
      var joined := if first then uri else uri + [SLASH];
      if |joined| > capacity || |joined| + |opts[0].value| > capacity then NoRoom
      else ScanUri(opts[1..], joined + opts[0].value, false, capacity)
    else if opts[0].number > OPTION_URI_PATH then Settled(uri)
    else ScanUri(opts[1..], uri, first, capacity)
  }

  /** The URI of a walked packet, as a string that must leave room for its terminator. */
  function UriOf(w: Walk, capacity: nat): (Status, seq<byte>) {
    if capacity < 1 then (BufferFull, [])
    else
      match ScanUri(Seen(w.visits), [SLASH], true, capacity)
      case NoRoom => (BufferFull, [])
      case Settled(uri) => if |uri| < capacity then (Success, uri) else (BufferFull, [])
      case Growing(uri) =>
        if w.end.AtEnd? || w.end.Truncated? then (BufferTooSmall, [])
        else if |uri| < capacity then (Success, uri)
        else (BufferFull, [])
  }

  lemma ScanFirst(opt: Opt, rest: seq<Opt>, uri: seq<byte>, first: bool, capacity: nat)
    ensures ScanUri([opt] + rest, uri, first, capacity)
         == if opt.number == OPTION_URI_PATH then
              var joined := if first then uri else uri + [SLASH];
              if |joined| > capacity || |joined| + |opt.value| > capacity then NoRoom
              else ScanUri(rest, joined + opt.value, false, capacity)
            else if opt.number > OPTION_URI_PATH then Settled(uri)
            else ScanUri(rest, uri, first, capacity)
  {
    assert ([opt] + rest)[1..] == rest;
  }

  lemma ScanNothing(uri: seq<byte>, first: bool, capacity: nat)
    ensures ScanUri([], uri, first, capacity) == Growing(uri)
  {
  }

  /** Rebuilds the URI string from the options at the reader's position. */
  method ExtractURIString(reader: PacketReader, capacity: nat) returns (r: Status, uri: seq<byte>)
    requires reader.Valid()
    modifies reader
    ensures reader.Valid()
    ensures var p := UriOf(WalkOptions(reader.data, old(reader.position), 0), capacity);
            r == p.0 && (r == Success ==> uri == p.1)
  {
    hide WalkOptions, ScanUri;
    ghost var whole := WalkOptions(reader.data, reader.position, 0);
    var current: u16 := 0;
    uri := [];
    if 1 > capacity {
      return BufferFull, uri;
    }
    uri := [SLASH];
    var first := true;
    while true
      invariant reader.Valid()
      invariant WalkOptions(reader.data, reader.position, current).end == whole.end
      invariant ScanUri(Seen(whole.visits), [SLASH], true, capacity)
             == ScanUri(Seen(WalkOptions(reader.data, reader.position, current).visits), uri, first, capacity)
      decreases |reader.data| - reader.position
    {
      ghost var here := WalkOptions(reader.data, reader.position, current);
      WalkUnfolds(reader.data, reader.position, current);
      ScanNothing(uri, first, capacity);
      var number: u16, value: OptionValue;
      r, number, value := ParseCoAPOption(reader, current);
      if r == InvalidPacket {
        break;
      }
      if r != Success {
        return;
      }
      ghost var rest := WalkOptions(reader.data, reader.position, number);
      ghost var v := Visit(number, reader.position - |value|, value);
      assert here.visits == [v] + rest.visits;
      SeenFirst(v, rest.visits);
      ScanFirst(Opt(number, value), Seen(rest.visits), uri, first, capacity);
      if number == OPTION_URI_PATH {
        if !first {
          if |uri| + 1 > capacity {
            return BufferFull, uri;
          }
          uri := uri + [SLASH];
        }
        first := false;
        if |uri| + |value| > capacity {
          return BufferFull, uri;
        }
        uri := uri + value;
      } else if number > OPTION_URI_PATH {
        break;
      }
      current := number;
    }
    if |uri| >= capacity {
      return BufferFull, uri;
    }
    r := Success;
  }

  /** What the receiver takes from a packet; the payload is absent if no marker precedes it. */
  datatype Extracted = Extracted(uri: seq<byte>, options: Options, payload: Option<seq<byte>>)

  function PayloadAt(packet: seq<byte>, pos: nat): Option<seq<byte>>
    requires pos <= |packet|
  {
    if pos < |packet| && packet[pos] == PAYLOAD_MARKER then Some(packet[pos + 1..]) else None
  }

  function Extract(packet: seq<byte>, token: nat, scope: seq<byte>, capacity: nat): Option<Extracted> {
    if |packet| < 4 || 4 + token > |packet| then None
    else
      var w := WalkOptions(packet, 4 + token, 0);
      var (status, uri) := UriOf(w, capacity);
      var o := OptionsOf(w, NO_OPTIONS);
      if status == Success && ValidateSigNetURI(CString(uri), scope) && o.status == Success
      then Some(Extracted(CString(uri), o.options, PayloadAt(packet, w.position)))
      else None
  }

  /** Positions a reader behind the header and the token. */
  method SkipHead(packet: seq<byte>, token: nat) returns (ok: bool, reader: PacketReader)
    requires |packet| < WRAP16
    ensures fresh(reader) && reader.Valid() && reader.data == packet
    ensures ok == (|packet| >= 4 && 4 + token <= |packet|)
    ensures ok ==> reader.position == 4 + token
  {
    reader := new PacketReader(packet);
    var b: byte, id: u16;
    ok, b := reader.ReadByte();
    if !ok {
      return;
    }
    ok, b := reader.ReadByte();
    if !ok {
      return;
    }
    ok, id := reader.ReadUInt16();
    if !ok {
      return;
    }
    if token != 0 {
      ok := reader.Skip(token);
    }
  }

  /** Reads URI, options and payload of a packet, in two passes over its options. */
  method ExtractPayload(packet: seq<byte>, token: nat, scope: seq<byte>, capacity: nat) returns (ok: bool, x: Extracted)
    requires |packet| < WRAP16
    ensures Extract(packet, token, scope, capacity) == if ok then Some(x) else None
  {
    hide WalkOptions, ValidateSigNetURI, OptionsOf, UriOf;
    x := Extracted([], NO_OPTIONS, None);
    var reader;
    ok, reader := SkipHead(packet, token);
    if !ok {
      return;
    }
    var r, buffer := ExtractURIString(reader, capacity);
    if r != Success {
      return false, x;
    }
    var uri := CString(buffer);
    if !ValidateSigNetURI(uri, scope) {
      return false, x;
    }
    ok, reader := SkipHead(packet, token);
    var o;
    r, o := ParseSigNetOptions(reader, NO_OPTIONS);
    if r != Success {
      return false, x;
    }
    var more, marker := reader.PeekByte();
    if !more || marker != PAYLOAD_MARKER {
      return true, Extracted(uri, o, None);
    }
    more, marker := reader.ReadByte();
    return true, Extracted(uri, o, Some(packet[reader.position..]));
  }

  /** The check of a packet's HMAC. */
  function Verify(uri: seq<byte>, o: Options, payload: seq<byte>, key: Key, hmac: Hmac): Status {
    if |HmacInput(uri, o, payload)| > HMAC_BUFFER then BufferFull
    else if hmac(key, HmacInput(uri, o, payload)) == o.hmac then Success
    else HmacFailed
  }

  /** Recomputes the HMAC and compares all 32 bytes, whatever the first difference. */
  method VerifyPacketHMAC(uri: seq<byte>, o: Options, payload: seq<byte>, key: Key, hmac: Hmac) returns (r: Status)
    ensures r == Verify(uri, o, payload, key, hmac)
  {
    hide HmacInput;
    var input := new byte[HMAC_BUFFER];
    var length;
    r, length := BuildHMACInput(uri, o, payload, input);
    if r != Success {
      return;
    }
    var computed := hmac(key, input[..length]);
    var differs := false;
    for i := 0 to HMAC_LENGTH
      invariant differs == (computed[..i] != o.hmac[..i])
    {
      assert computed[..i + 1] == computed[..i] + [computed[i]] && o.hmac[..i + 1] == o.hmac[..i] + [o.hmac[i]];
      differs := differs || computed[i] != o.hmac[i];
    }
    assert computed[..HMAC_LENGTH] == computed && o.hmac[..HMAC_LENGTH] == o.hmac;
    if differs {
      return HmacFailed;
    }
    return Success;
  }

  // --------------------------------------------------------------- end to end

  /** A path that fits is rebuilt segment by segment, after a slash or after the segments before it. */
  lemma {:induction false} ScanPath(segs: seq<seq<byte>>, uri: seq<byte>, rest: seq<Opt>, capacity: nat)
    requires forall i :: 0 <= i < |segs| ==> |segs[i]| < WRAP16
    requires |uri + Path(segs)| <= capacity
    ensures ScanUri(PathOptions(segs) + rest, uri, false, capacity) == ScanUri(rest, uri + Path(segs), false, capacity)
    decreases |segs|
  {
    hide ScanUri;
    if segs == [] {
      assert PathOptions(segs) + rest == rest && uri + Path(segs) == uri;
    } else {
      var next := uri + [SLASH] + segs[0];
      assert uri + Path(segs) == next + Path(segs[1..]);
      assert PathOptions(segs) + rest == [Opt(OPTION_URI_PATH, segs[0])] + (PathOptions(segs[1..]) + rest);
      ScanFirst(Opt(OPTION_URI_PATH, segs[0]), PathOptions(segs[1..]) + rest, uri, false, capacity);
      ScanPath(segs[1..], next, rest, capacity);
    }
  }

  lemma ScanWholePath(segs: seq<seq<byte>>, opt: Opt, rest: seq<Opt>, capacity: nat)
    requires segs != [] && forall i :: 0 <= i < |segs| ==> |segs[i]| < WRAP16
    requires |Path(segs)| <= capacity && opt.number > OPTION_URI_PATH
    ensures ScanUri(PathOptions(segs) + ([opt] + rest), [SLASH], true, capacity) == Settled(Path(segs))
  {
    hide ScanUri, Path;
    var first := [SLASH] + segs[0];
    var tail := [opt] + rest;
    PathFirst(segs);
    assert PathOptions(segs) + tail == [Opt(OPTION_URI_PATH, segs[0])] + (PathOptions(segs[1..]) + tail);
    ScanFirst(Opt(OPTION_URI_PATH, segs[0]), PathOptions(segs[1..]) + tail, [SLASH], true, capacity);
    ScanPath(segs[1..], first, tail, capacity);
    ScanFirst(opt, rest, Path(segs), false, capacity);
  }

  /** The options of a built packet are walked over exactly as written, up to the marker in front of the payload. */
  lemma BuiltWalk(messageId: u16, segs: seq<seq<byte>>, o: Options, d: Digest, payload: seq<byte>)
    requires forall i :: 0 <= i < |segs| ==> |segs[i]| < WRAP16
    ensures var packet := PacketBytes(messageId, segs, o, d, payload);
            && |packet| >= 4 && TokenLength(packet) == 0
            && var w := WalkOptions(packet, 4, 0);
               && Seen(w.visits) == AllOptions(segs, o, d)
               && w.end == AtMarker
               && PayloadAt(packet, w.position) == Some(payload)
  {
    hide WalkOptions, EncodeOptions, AllOptions, Ascending;
    AllAscend(segs, o, d);
    var opts := AllOptions(segs, o, d);
    var packet := PacketBytes(messageId, segs, o, d, payload);
    var body := EncodeOptions(opts, 0);
    assert packet[4..4 + |body|] == body;
    assert packet[4 + |body|] == PAYLOAD_MARKER;
    assert packet[4 + |body| + 1..] == payload;
    assert packet[0] == 0x50;
    OptionListRoundTrip(packet, 4, opts, 0);
  }

  /** What the receiver makes of the options of a built packet. */
  lemma BuiltOptions(w: Walk, segs: seq<seq<byte>>, o: Options, d: Digest, capacity: nat)
    requires segs != [] && forall i :: 0 <= i < |segs| ==> |segs[i]| < WRAP16
    requires o.mode == MODE_HMAC_SHA256 && |Path(segs)| < capacity
    requires Seen(w.visits) == AllOptions(segs, o, d) && w.end == AtMarker
    ensures UriOf(w, capacity) == (Success, Path(segs))
    ensures OptionsOf(w, NO_OPTIONS) == Outcome(Success, o.(authLength := HMAC_LENGTH, hmac := d))
  {
    hide Take, TakeAll, ScanUri, U16, U32, Path;
    var path, custom := PathOptions(segs), UnsignedOptions(o) + [HmacOption(d)];
    assert Seen(w.visits) == path + custom;
    TakeSkipsPath(Found(NO_OPTIONS, {}), path, custom);
    TakeWritten(NO_OPTIONS, o, d);
    assert custom == [custom[0]] + custom[1..];
    ScanWholePath(segs, custom[0], custom[1..], capacity);
  }

  /**
   End to end, for every URI of this scope, every identity, every counter,
   every key and every HMAC function: the packet built with a non-empty payload
   is extracted as exactly the signed URI, the same options and the same
   payload bytes, and its HMAC verifies under the signing key.
   */
  lemma EndToEnd(
    messageId: u16, segs: seq<seq<byte>>, o: Options, payload: seq<byte>, key: Key, hmac: Hmac,
    scope: seq<byte>, capacity: nat, packet: seq<byte>)
    requires AllPlain(segs) && |segs| >= 4 && segs[..3] == [PREFIX, VERSION, scope]
    requires |Path(segs)| < capacity && o.mode == MODE_HMAC_SHA256
    requires Built(messageId, segs, o, payload, key, hmac, Success, packet)
    ensures var signed := o.(authLength := HMAC_LENGTH, hmac := Sign(hmac, key, Path(segs), o, payload));
            && Extract(packet, TokenLength(packet), scope, capacity)
               == Some(Extracted(Path(segs), signed, Some(payload)))
            && Verify(Path(segs), signed, payload, key, hmac) == Success
    ensures Version(packet[0]) == COAP_VERSION && MessageType(packet[0]) == COAP_TYPE_NON && packet[1] == COAP_CODE_POST
  {
    hide WalkOptions, AllOptions, ValidateSigNetURI, UriOf, OptionsOf, Path, HmacInput;
    var d := Sign(hmac, key, Path(segs), o, payload);
    BuiltWalk(messageId, segs, o, d, payload);
    var w := WalkOptions(packet, 4, 0);
    BuiltOptions(w, segs, o, d, capacity);
    PathIsCString(segs);
    assert segs[0] == segs[..3][0] && segs[1] == segs[..3][1] && segs[2] == segs[..3][2];
    ValidPaths(segs, scope);
    HeadOfPacket(messageId, segs, o, d, payload);
    SignatureCovers(Path(segs), o, d, payload);
  }

  lemma HeadOfPacket(messageId: u16, segs: seq<seq<byte>>, o: Options, d: Digest, payload: seq<byte>)
    requires forall i :: 0 <= i < |segs| ==> |segs[i]| < WRAP16
    ensures var p := PacketBytes(messageId, segs, o, d, payload); |p| >= 4 && p[0] == 0x50 && p[1] == COAP_CODE_POST
  {
    hide EncodeOptions, AllOptions;
  }

  /** The HMAC does not cover itself. */
  lemma SignatureCovers(uri: seq<byte>, o: Options, d: Digest, payload: seq<byte>)
    ensures HmacInput(uri, o.(authLength := HMAC_LENGTH, hmac := d), payload) == HmacInput(uri, o, payload)
  {
  }

  /** A DMX packet arrives as it was sent. */
  lemma DmxEndToEnd(
    scope: seq<byte>, universe: nat, dmx: seq<byte>, tuid: Tuid, endpoint: u16, mfg: u16, session: u32, seqNum: u32,
    key: Key, messageId: u16, hmac: Hmac, r: Status, packet: seq<byte>)
    requires ValidScope(scope) && MIN_UNIVERSE <= universe <= MAX_UNIVERSE && 1 <= |dmx| <= MAX_DMX_SLOTS
    requires Built(messageId, LevelSegments(scope, universe), SenderOptions(tuid, endpoint, mfg, session, seqNum),
                   TlvBytes(Tlv(TID_LEVEL, dmx)), key, hmac, r, packet)
    ensures packet != []
    ensures var x := Extract(packet, TokenLength(packet), scope, 128);
            && x.Some?
            && x.value.uri == Path(LevelSegments(scope, universe))
            && x.value.options.senderId == SenderIdOf(tuid, endpoint)
            && x.value.options.session == session && x.value.options.seqNum == seqNum && x.value.options.mfg == mfg
            && x.value.payload.Some?
            && ReadStream(x.value.payload.value, 0) == Stream([Tlv(TID_LEVEL, dmx)], true)
            && Verify(x.value.uri, x.value.options, x.value.payload.value, key, hmac) == Success
  {
    var segs, o, t := LevelSegments(scope, universe),
                      SenderOptions(tuid, endpoint, mfg, session, seqNum), Tlv(TID_LEVEL, dmx);
    DmxPacketFits(scope, universe, dmx, o, messageId, key, hmac, r, packet);
    SegmentsArePlain(scope, universe, tuid);
    hide Path, Extract, Verify, Built, TlvBytes, ReadStream;
    EndToEnd(messageId, segs, o, TlvBytes(t), key, hmac, scope, 128, packet);
    StreamSingle(t);
    assert TlvBytes(t)[0..] == StreamBytes([t]);
    StreamRoundTrip(TlvBytes(t), 0, [t]);
  }

  /** A poll arrives as it was sent. */
  lemma PollEndToEnd(
    scope: seq<byte>, manager: Tuid, mfg: u16, variant: u16, lo: Tuid, hi: Tuid, endpoint: u16, level: byte,
    session: u32, seqNum: u32, key: Key, messageId: u16, hmac: Hmac, r: Status, packet: seq<byte>)
    requires ValidScope(scope) && level <= QUERY_EXTENDED
    requires Built(messageId, PollSegments(scope), SenderOptions(manager, 0, 0, session, seqNum),
                   TlvBytes(PollTlv(manager, mfg, variant, lo, hi, endpoint, level)), key, hmac, r, packet)
    ensures r == Success && packet != []
    ensures var x := Extract(packet, TokenLength(packet), scope, 128);
            && x.Some?
            && x.value.uri == Path(PollSegments(scope))
            && x.value.options.senderId == SenderIdOf(manager, 0)
            && x.value.options.session == session && x.value.options.seqNum == seqNum
            && x.value.payload.Some?
            && ReadStream(x.value.payload.value, 0)
               == Stream([PollTlv(manager, mfg, variant, lo, hi, endpoint, level)], true)
            && Verify(x.value.uri, x.value.options, x.value.payload.value, key, hmac) == Success
  {
    var segs, o, t := PollSegments(scope), SenderOptions(manager, 0, 0, session, seqNum),
                      PollTlv(manager, mfg, variant, lo, hi, endpoint, level);
    PollLength(scope);
    PacketSize(messageId, segs, o, Sign(hmac, key, Path(segs), o, TlvBytes(t)), TlvBytes(t));
    SegmentsArePlain(scope, 1, manager);
    hide Path, Extract, Verify, PacketBytes, TlvBytes, ReadStream, HmacInput;
    EndToEnd(messageId, segs, o, TlvBytes(t), key, hmac, scope, 128, packet);
    StreamSingle(t);
    assert TlvBytes(t)[0..] == StreamBytes([t]);
    StreamRoundTrip(TlvBytes(t), 0, [t]);
  }

  /** A start-up announcement arrives as it was sent, block for block. */
  lemma AnnounceEndToEnd(
    scope: seq<byte>, tuid: Tuid, mfg: u16, variant: u16, version: byte, roles: byte, changeCount: u16,
    session: u32, seqNum: u32, key: Key, messageId: u16, hmac: Hmac, r: Status, packet: seq<byte>)
    requires ValidScope(scope)
    requires Built(messageId, NodeSegments(scope, tuid, 0), SenderOptions(tuid, 0, mfg, session, seqNum),
                   StreamBytes(AnnounceTlvs(tuid, mfg, variant, version, roles, changeCount)), key, hmac, r, packet)
    ensures r == Success && packet != []
    ensures var x := Extract(packet, TokenLength(packet), scope, 128);
            && x.Some?
            && x.value.uri == Path(NodeSegments(scope, tuid, 0))
            && x.value.options.senderId == SenderIdOf(tuid, 0)
            && x.value.options.session == session && x.value.options.seqNum == seqNum && x.value.options.mfg == mfg
            && x.value.payload.Some?
            && ReadStream(x.value.payload.value, 0)
               == Stream(AnnounceTlvs(tuid, mfg, variant, version, roles, changeCount), true)
            && Verify(x.value.uri, x.value.options, x.value.payload.value, key, hmac) == Success
  {
    var segs, o := NodeSegments(scope, tuid, 0), SenderOptions(tuid, 0, mfg, session, seqNum);
    var ts := AnnounceTlvs(tuid, mfg, variant, version, roles, changeCount);
    var payload := StreamBytes(ts);
    NodeLength(scope, tuid, 0);
    AnnounceUnfolds(tuid, mfg, variant, version, roles, changeCount);
    PacketSize(messageId, segs, o, Sign(hmac, key, Path(segs), o, payload), payload);
    SegmentsArePlain(scope, 0, tuid);
    hide Path, Extract, Verify, PacketBytes, StreamBytes, ReadStream, HmacInput, AnnounceTlvs, Decimal, ToHex;
    EndToEnd(messageId, segs, o, payload, key, hmac, scope, 128, packet);
    assert payload[0..] == payload;
    StreamRoundTrip(payload, 0, ts);
  }
}
