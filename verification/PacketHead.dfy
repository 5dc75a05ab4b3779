/**
 The head of a packet: the 4-byte CoAP header (section 3 of RFC 7252) and the
 Uri-Path options of the three kinds of packet built here.
 */
module PacketHead {
  import opened Bytes
  import opened Freshness
  import opened PacketIO
  import opened CoapOption
  import opened CoapWalk
  import opened Text
  import opened UriPath
  import opened Lanes
  import opened SigNetOptions

  const COAP_VERSION: byte := 1
  const COAP_TYPE_NON: byte := 1
  const COAP_CODE_POST: byte := 2
  const URI_STRING_MIN_BUFFER: nat := 96

  // ------------------------------------------------------------------- header

  function Version(b: byte): byte { b / 64 }
  function MessageType(b: byte): byte { b / 16 % 4 }
  function TokenBits(b: byte): byte { b % 16 }

  /** The header's first byte with one of its bit fields replaced. */
  function SetVersion(b: byte, v: byte): byte { 64 * ((v as int) % 4) + b % 64 }
  function SetType(b: byte, t: byte): byte { 64 * ((b as int) / 64) + 16 * ((t as int) % 4) + b % 16 }
  function SetTokenLength(b: byte, n: byte): byte { 16 * ((b as int) / 16) + n % 16 }

  lemma Fields(b: byte)
    ensures b == 64 * (Version(b) as int) + 16 * (MessageType(b) as int) + TokenBits(b)
  {
    assert b / 16 == 4 * ((b as int) / 64) + b / 16 % 4;
  }

  lemma Digits(v: int, t: int, n: int)
    requires 0 <= v < 4 && 0 <= t < 4 && 0 <= n < 16
    ensures var b := 64 * v + 16 * t + n; b / 64 == v && b / 16 % 4 == t && b % 16 == n
  {
    assert (64 * v + 16 * t + n) / 16 == 4 * v + t;
  }

  /** Each setter changes its own bit field and no other. */
  lemma SetVersionFields(b: byte, v: byte)
    requires v < 4
    ensures var r := SetVersion(b, v);
            Version(r) == v && MessageType(r) == MessageType(b) && TokenBits(r) == TokenBits(b)
  {
    Fields(b);
    Digits(v, MessageType(b), TokenBits(b));
  }

  lemma SetTypeFields(b: byte, t: byte)
    requires t < 4
    ensures var r := SetType(b, t); Version(r) == Version(b) && MessageType(r) == t && TokenBits(r) == TokenBits(b)
  {
    Fields(b);
    Digits(Version(b), t, TokenBits(b));
  }

  lemma SetTokenLengthFields(b: byte, n: byte)
    requires n < 16
    ensures var r := SetTokenLength(b, n);
            Version(r) == Version(b) && MessageType(r) == MessageType(b) && TokenBits(r) == n
  {
    Fields(b);
    Digits(Version(b), MessageType(b), n);
  }

  /** So setting all three fixes the whole byte, whatever it held before. */
  lemma HeaderFields(garbage: byte, v: byte, t: byte, n: byte)
    requires v < 4 && t < 4 && n < 16
    ensures SetTokenLength(SetType(SetVersion(garbage, v), t), n) == 64 * (v as int) + 16 * (t as int) + n
  {
    hide SetVersion, SetType, SetTokenLength, Version, MessageType, TokenBits;
    SetVersionFields(garbage, v);
    SetTypeFields(SetVersion(garbage, v), t);
    SetTokenLengthFields(SetType(SetVersion(garbage, v), t), n);
    Fields(SetTokenLength(SetType(SetVersion(garbage, v), t), n));
  }

  function HeaderBytes(messageId: u16): (s: seq<byte>)
    ensures |s| == 4
  {
    [0x50, COAP_CODE_POST] + U16(messageId)
  }

  /** Writes the 4-byte header; its first byte starts out undefined in the source. */
  method BuildCoAPHeader(buffer: PacketBuffer, messageId: u16) returns (r: Status)
    requires buffer.Valid()
    modifies buffer, buffer.buffer
    ensures buffer.Valid() && Wrote(old(buffer.Contents()), HeaderBytes(messageId), r, buffer.Contents())
  {
    var b: byte := *;
    HeaderFields(b, COAP_VERSION, COAP_TYPE_NON, 0);
    b := SetTokenLength(SetType(SetVersion(b, COAP_VERSION), COAP_TYPE_NON), 0);
    assert b == 0x50;
    r := buffer.WriteBytes([b, COAP_CODE_POST, messageId / 0x100, messageId % 0x100]);
    assert HeaderBytes(messageId) == [b, COAP_CODE_POST, messageId / 0x100, messageId % 0x100];
  }

  // ----------------------------------------------------------------- URI path

  /** The Uri-Path options of a path (section 5.10.1 of RFC 7252). */
  function PathOptions(segs: seq<seq<byte>>): (opts: seq<Opt>)
    requires forall i :: 0 <= i < |segs| ==> |segs[i]| < WRAP16
    ensures |opts| == |segs|
    ensures forall i :: 0 <= i < |segs| ==> opts[i] == Opt(OPTION_URI_PATH, segs[i])
  {
    seq(|segs|, i requires 0 <= i < |segs| => Opt(OPTION_URI_PATH, segs[i]))
  }

  /** Options with one number, none below `prev`, are in order. */
  lemma {:induction false} PathAscends(opts: seq<Opt>, prev: u16)
    requires prev <= OPTION_URI_PATH && forall i :: 0 <= i < |opts| ==> opts[i].number == OPTION_URI_PATH
    ensures Ascending(opts, prev)
    ensures opts != [] ==> LastNumber(opts, prev) == OPTION_URI_PATH
    decreases |opts|
  {
    if opts != [] {
      PathAscends(opts[1..], OPTION_URI_PATH);
    }
  }

  /** Writes one more path segment. */
  method WriteSegment(
    buffer: PacketBuffer, ghost before: seq<byte>, ghost done: seq<Opt>, r0: Status, prev: u16, seg: seq<byte>)
      returns (r: Status)
    requires buffer.Valid() && |seg| < WRAP16
    requires forall i :: 0 <= i < |done| ==> done[i].number == OPTION_URI_PATH
    requires prev == if done == [] then 0 else OPTION_URI_PATH
    requires Ascending(done, 0) && Wrote(before, EncodeOptions(done, 0), r0, buffer.Contents())
    modifies buffer, buffer.buffer
    ensures buffer.Valid() && Ascending(done + [Opt(OPTION_URI_PATH, seg)], 0)
    ensures Wrote(before, EncodeOptions(done + [Opt(OPTION_URI_PATH, seg)], 0), r, buffer.Contents())
  {
    r := WriteNext(buffer, before, done, 0, r0, OPTION_URI_PATH, prev, seg);
  }

  /** The segments every Sig-Net URI begins with: prefix, version, scope. */
  method WritePathPrefix(buffer: PacketBuffer, scope: seq<byte>) returns (r: Status)
    requires buffer.Valid() && |scope| < WRAP16
    modifies buffer, buffer.buffer
    ensures buffer.Valid() && Ascending(PathOptions([PREFIX, VERSION, scope]), 0)
    ensures Wrote(old(buffer.Contents()), EncodeOptions(PathOptions([PREFIX, VERSION, scope]), 0), r, buffer.Contents())
  {
    ghost var before := buffer.Contents();
    assert Wrote(before, EncodeOptions([], 0), Success, before);
    hide OptionBytes, EncodeOptions, Ascending, Wrote;
    ghost var o1, o2, o3 := Opt(OPTION_URI_PATH, PREFIX), Opt(OPTION_URI_PATH, VERSION), Opt(OPTION_URI_PATH, scope);
    assert Ascending([], 0) by {
      PathAscends([], 0);
    }
    r := WriteSegment(buffer, before, [], Success, 0, PREFIX);
    assert [] + [o1] == [o1];
    r := WriteSegment(buffer, before, [o1], r, OPTION_URI_PATH, VERSION);
    assert [o1] + [o2] == [o1, o2];
    r := WriteSegment(buffer, before, [o1, o2], r, OPTION_URI_PATH, scope);
    assert [o1, o2] + [o3] == PathOptions([PREFIX, VERSION, scope]);
  }

  /** Uri-Path options of /sig-net/v1/{scope}/level/{universe}. */
  method BuildURIPathOptions(buffer: PacketBuffer, scope: seq<byte>, universe: nat) returns (r: Status)
    requires buffer.Valid() && ValidScope(scope)
    modifies buffer, buffer.buffer
    ensures buffer.Valid()
    ensures !(MIN_UNIVERSE <= universe <= MAX_UNIVERSE) ==>
              r == InvalidArg && buffer.Contents() == old(buffer.Contents())
    ensures MIN_UNIVERSE <= universe <= MAX_UNIVERSE ==>
              && |Decimal(universe)| <= 5
              && Ascending(PathOptions(LevelSegments(scope, universe)), 0)
              && Wrote(old(buffer.Contents()), EncodeOptions(PathOptions(LevelSegments(scope, universe)), 0),
                       r, buffer.Contents())
  {
    if universe < MIN_UNIVERSE || universe > MAX_UNIVERSE {
      return InvalidArg;
    }
    hide OptionBytes, EncodeOptions, Ascending, Wrote, Decimal;
    ghost var before := buffer.Contents();
    DecimalLength(universe);
    ghost var p := PathOptions([PREFIX, VERSION, scope]);
    r := WritePathPrefix(buffer, scope);
    r := WriteSegment(buffer, before, p, r, OPTION_URI_PATH, LEVEL);
    p := p + [Opt(OPTION_URI_PATH, LEVEL)];
    r := WriteSegment(buffer, before, p, r, OPTION_URI_PATH, Decimal(universe));
    p := p + [Opt(OPTION_URI_PATH, Decimal(universe))];
    assert p == PathOptions(LevelSegments(scope, universe));
  }

  lemma SplitPath(head: seq<byte>, rest: seq<seq<byte>>)
    ensures Path([head] + rest) == [SLASH] + head + Path(rest)
  {
    assert ([head] + rest)[1..] == rest;
  }

  /** A path of four segments, printed from left to right. */
  lemma PathOfFour(a: seq<byte>, b: seq<byte>, c: seq<byte>, d: seq<byte>)
    ensures Path([a, b, c, d]) == [SLASH] + a + [SLASH] + b + [SLASH] + c + [SLASH] + d
  {
    hide Path;
    SplitPath(a, [b, c, d]);
    SplitPath(b, [c, d]);
    SplitPath(c, [d]);
    SplitPath(d, []);
    assert Path([]) == [] by {
      NoSegments();
    }
    assert [a] + [b, c, d] == [a, b, c, d] && [b] + [c, d] == [b, c, d] && [c] + [d] == [c, d] && [d] + [] == [d];
  }

  lemma NoSegments()
    ensures Path([]) == []
  {
  }

  /** Adding a segment at the end of a path prints it after a slash. */
  lemma {:induction false} PathAppend(segs: seq<seq<byte>>, last: seq<byte>)
    ensures Path(segs + [last]) == Path(segs) + [SLASH] + last
  {
    if segs == [] {
      SplitPath(last, []);
      assert [last] + [] == [last] && segs + [last] == [last];
    } else {
      PathAppend(segs[1..], last);
      assert (segs + [last])[1..] == segs[1..] + [last];
      assert [SLASH] + segs[0] + (Path(segs[1..]) + [SLASH] + last)
          == [SLASH] + segs[0] + Path(segs[1..]) + [SLASH] + last;
    }
  }

  /** "/sig-net/v1/{scope}/{word}" */
  function Printed(scope: seq<byte>, word: seq<byte>): seq<byte> {
    [SLASH] + PREFIX + [SLASH] + VERSION + [SLASH] + scope + [SLASH] + word
  }

  /**
   The same URI as text, for the HMAC. A buffer of the required 96 bytes is
   always enough; the text is a valid URI of the scope, and the receiver reads
   the universe back from it unless the scope is itself "level".
   */
  method BuildURIString(scope: seq<byte>, universe: nat, maxLength: nat) returns (r: Status, uri: seq<byte>)
    requires ValidScope(scope)
    ensures r == if maxLength < URI_STRING_MIN_BUFFER || !(MIN_UNIVERSE <= universe <= MAX_UNIVERSE) then InvalidArg
                 else Success
    ensures r == Success ==>
              && uri == Path(LevelSegments(scope, universe)) && |uri| < URI_STRING_MIN_BUFFER
              && ValidateSigNetURI(uri, scope)
              && (UniverseOf(uri) == Some(universe) <==> scope != LEVEL)
  {
    hide Path, Decimal, ValidateSigNetURI, UniverseOf;
    uri := [];
    if maxLength < URI_STRING_MIN_BUFFER {
      return InvalidArg, uri;
    }
    if universe < MIN_UNIVERSE || universe > MAX_UNIVERSE {
      return InvalidArg, uri;
    }
    uri := Printed(scope, LEVEL) + [SLASH] + Decimal(universe);
    LevelText(scope, universe);
    DecimalLength(universe);
    UniverseRoundTrip(scope, universe);
    r := if |uri| < maxLength then Success else EncodeError;
  }

  lemma LevelText(scope: seq<byte>, universe: nat)
    requires ValidScope(scope)
    ensures Path(LevelSegments(scope, universe)) == Printed(scope, LEVEL) + [SLASH] + Decimal(universe)
    ensures |Printed(scope, LEVEL)| == 18 + |scope|
    ensures ValidateSigNetURI(Path(LevelSegments(scope, universe)), scope)
  {
    hide Path, Decimal, ValidateSigNetURI;
    var segs := LevelSegments(scope, universe);
    PathOfFour(PREFIX, VERSION, scope, LEVEL);
    PathAppend([PREFIX, VERSION, scope, LEVEL], Decimal(universe));
    assert segs == [PREFIX, VERSION, scope, LEVEL] + [Decimal(universe)];
    SegmentsArePlain(scope, universe, NO_TUID);
    ValidPaths(segs, scope);
  }

  lemma NodeText(scope: seq<byte>, tuid: Tuid, endpoint: nat)
    ensures Path(NodeSegments(scope, tuid, endpoint))
         == Printed(scope, NODE) + [SLASH] + ToHex(tuid) + [SLASH] + Decimal(endpoint)
  {
    hide Path, Decimal, ToHex;
    var head := [PREFIX, VERSION, scope, NODE];
    PathOfFour(PREFIX, VERSION, scope, NODE);
    PathAppend(head, ToHex(tuid));
    PathAppend(head + [ToHex(tuid)], Decimal(endpoint));
    assert NodeSegments(scope, tuid, endpoint) == head + [ToHex(tuid)] + [Decimal(endpoint)];
  }

  /** Uri-Path options of /sig-net/v1/{scope}/node/{tuid}/{endpoint}, and the same URI as text. */
  method BuildNodeURIPathOptions(buffer: PacketBuffer, scope: seq<byte>, tuid: Tuid, endpoint: u16, maxLength: nat)
      returns (r: Status, uri: seq<byte>)
    requires buffer.Valid() && ValidScope(scope)
    modifies buffer, buffer.buffer
    ensures buffer.Valid()
    ensures maxLength > 0 ==> uri == Path(NodeSegments(scope, tuid, endpoint))
    ensures |uri| >= maxLength ==>
              r == (if maxLength == 0 then InvalidArg else EncodeError) && buffer.Contents() == old(buffer.Contents())
    ensures |uri| < maxLength ==>
              && |Decimal(endpoint)| <= 5
              && Ascending(PathOptions(NodeSegments(scope, tuid, endpoint)), 0)
              && Wrote(old(buffer.Contents()), EncodeOptions(PathOptions(NodeSegments(scope, tuid, endpoint)), 0),
                       r, buffer.Contents())
  {
    hide OptionBytes, EncodeOptions, Ascending, Wrote, Decimal, ToHex, Path;
    ghost var before := buffer.Contents();
    DecimalLength(endpoint);
    if maxLength == 0 {
      return InvalidArg, [];
    }
    uri := Printed(scope, NODE) + [SLASH] + ToHex(tuid) + [SLASH] + Decimal(endpoint);
    NodeText(scope, tuid, endpoint);
    if |uri| >= maxLength {
      return EncodeError, uri;
    }
    ghost var p := PathOptions([PREFIX, VERSION, scope]);
    r := WritePathPrefix(buffer, scope);
    r := WriteSegment(buffer, before, p, r, OPTION_URI_PATH, NODE);
    p := p + [Opt(OPTION_URI_PATH, NODE)];
    r := WriteSegment(buffer, before, p, r, OPTION_URI_PATH, ToHex(tuid));
    p := p + [Opt(OPTION_URI_PATH, ToHex(tuid))];
    r := WriteSegment(buffer, before, p, r, OPTION_URI_PATH, Decimal(endpoint));
    p := p + [Opt(OPTION_URI_PATH, Decimal(endpoint))];
    assert p == PathOptions(NodeSegments(scope, tuid, endpoint));
  }

  /** Uri-Path options of /sig-net/v1/{scope}/poll, and the same URI as text. */
  method BuildPollURIPathOptions(
    buffer: PacketBuffer, scope: seq<byte>, maxLength: nat) returns (r: Status, uri: seq<byte>)
    requires buffer.Valid() && ValidScope(scope)
    modifies buffer, buffer.buffer
    ensures buffer.Valid()
    ensures maxLength > 0 ==> uri == Path(PollSegments(scope))
    ensures |uri| >= maxLength ==>
              r == (if maxLength == 0 then InvalidArg else EncodeError) && buffer.Contents() == old(buffer.Contents())
    ensures |uri| < maxLength ==>
              && Ascending(PathOptions(PollSegments(scope)), 0)
              && Wrote(old(buffer.Contents()), EncodeOptions(PathOptions(PollSegments(scope)), 0), r, buffer.Contents())
  {
    hide OptionBytes, EncodeOptions, Ascending, Wrote, Path;
    ghost var before := buffer.Contents();
    if maxLength == 0 {
      return InvalidArg, [];
    }
    uri := Printed(scope, POLL);
    PathOfFour(PREFIX, VERSION, scope, POLL);
    if |uri| >= maxLength {
      return EncodeError, uri;
    }
    ghost var p := PathOptions([PREFIX, VERSION, scope]);
    r := WritePathPrefix(buffer, scope);
    r := WriteSegment(buffer, before, p, r, OPTION_URI_PATH, POLL);
    p := p + [Opt(OPTION_URI_PATH, POLL)];
    assert p == PathOptions(PollSegments(scope));
  }
}
