/**
 TLV payloads: the encoders of the messages a node and a manager exchange, and
 the block parser with the two loops that consume it.
 */
module TlvStream {
  import opened Bytes
  import opened PacketIO
  import opened Freshness
  import opened Tids

  const MAX_DMX_SLOTS: nat := 512
  const QUERY_HEARTBEAT: byte := 0
  const QUERY_CONFIG: byte := 1
  const QUERY_FULL: byte := 2
  const QUERY_EXTENDED: byte := 3

  type TlvValue = s: seq<byte> | |s| < WRAP16 witness []

  datatype Tlv = Tlv(tid: u16, value: TlvValue)

  function TlvBytes(t: Tlv): (s: seq<byte>)
    ensures |s| == 4 + |t.value|
  {
    U16(t.tid) + U16(|t.value|) + t.value
  }

  function StreamBytes(ts: seq<Tlv>): seq<byte> {
    if ts == [] then [] else TlvBytes(ts[0]) + StreamBytes(ts[1..])
  }

  lemma {:induction false} StreamAppend(a: seq<Tlv>, b: seq<Tlv>)
    ensures StreamBytes(a + b) == StreamBytes(a) + StreamBytes(b)
  {
    hide TlvBytes;
    if a == [] {
      assert a + b == b;
    } else {
      assert (a + b)[1..] == a[1..] + b;
      StreamAppend(a[1..], b);
      Assoc(TlvBytes(a[0]), StreamBytes(a[1..]), StreamBytes(b));
    }
  }

  lemma StreamSingle(t: Tlv)
    ensures StreamBytes([t]) == TlvBytes(t)
  {
    assert StreamBytes([t]) == TlvBytes(t) + StreamBytes([]);
  }

  // ----------------------------------------------------------------- encoding

  method EncodeTLV(buffer: PacketBuffer, t: Tlv) returns (r: Status)
    requires buffer.Valid()
    modifies buffer, buffer.buffer
    ensures buffer.Valid() && Wrote(old(buffer.Contents()), TlvBytes(t), r, buffer.Contents())
  {
    ghost var before := buffer.Contents();
    r := buffer.WriteUInt16(t.tid);
    ghost var r0, c0 := r, buffer.Contents();
    if r == Success {
      r := buffer.WriteUInt16(|t.value|);
    }
    WroteBoth(before, U16(t.tid), r0, c0, U16(|t.value|), r, buffer.Contents());
    ghost var r1, c1 := r, buffer.Contents();
    if r == Success && |t.value| > 0 {
      r := buffer.WriteBytes(t.value);
    }
    WroteBoth(before, U16(t.tid) + U16(|t.value|), r1, c1, t.value, r, buffer.Contents());
  }

  /** Encodes a list of blocks, stopping at the first that does not fit. */
  method BuildPayload(buffer: PacketBuffer, ts: seq<Tlv>) returns (r: Status)
    requires buffer.Valid()
    modifies buffer, buffer.buffer
    ensures buffer.Valid() && Wrote(old(buffer.Contents()), StreamBytes(ts), r, buffer.Contents())
  {
    hide TlvBytes;
    ghost var before := buffer.Contents();
    r := Success;
    for i := 0 to |ts|
      invariant buffer.Valid() && r == Success
      invariant Wrote(before, StreamBytes(ts[..i]), r, buffer.Contents())
    {
      ghost var c := buffer.Contents();
      r := EncodeTLV(buffer, ts[i]);
      WroteBoth(before, StreamBytes(ts[..i]), Success, c, TlvBytes(ts[i]), r, buffer.Contents());
      StreamAppend(ts[..i], [ts[i]]);
      StreamSingle(ts[i]);
      assert ts[..i + 1] == ts[..i] + [ts[i]];
      if r != Success {
        StreamAppend(ts[..i + 1], ts[i + 1..]);
        assert ts == ts[..i + 1] + ts[i + 1..];
        return;
      }
    }
    assert ts[..|ts|] == ts;
  }

  /** Manager identity, TUID range, endpoint and query level: 25 bytes. */
  function PollTlv(manager: Tuid, mfg: u16, variant: u16, lo: Tuid, hi: Tuid, endpoint: u16, level: byte): Tlv {
    Tlv(TID_POLL, manager + U16(mfg) + U16(variant) + lo + hi + U16(endpoint) + [level])
  }

  function PollReplyTlv(tuid: Tuid, mfg: u16, variant: u16, changeCount: u16): Tlv {
    Tlv(TID_POLL_REPLY, tuid + U16(mfg) + U16(variant) + U16(changeCount))
  }

  /** Where a poll and its reply carry what. */
  lemma PollLayout(
    manager: Tuid, mfg: u16, variant: u16, lo: Tuid, hi: Tuid, endpoint: u16, level: byte, tuid: Tuid, changeCount: u16)
    ensures var v := PollTlv(manager, mfg, variant, lo, hi, endpoint, level).value;
            && |v| == 25 && v[0..6] == manager && FromU16(v[6..8]) == mfg && FromU16(v[8..10]) == variant
            && v[10..16] == lo && v[16..22] == hi && FromU16(v[22..24]) == endpoint && v[24] == level
    ensures var v := PollReplyTlv(tuid, mfg, variant, changeCount).value;
            && |v| == 12 && v[0..6] == tuid && FromU16(v[6..8]) == mfg && FromU16(v[8..10]) == variant
            && FromU16(v[10..12]) == changeCount
  {
    U16RoundTrip(mfg, [0, 0]);
    U16RoundTrip(variant, [0, 0]);
    U16RoundTrip(endpoint, [0, 0]);
    U16RoundTrip(changeCount, [0, 0]);
    hide U16, FromU16;
    var v := PollTlv(manager, mfg, variant, lo, hi, endpoint, level).value;
    var w := PollReplyTlv(tuid, mfg, variant, changeCount).value;
    assert v[6..8] == U16(mfg) && v[8..10] == U16(variant) && v[22..24] == U16(endpoint);
    assert w[6..8] == U16(mfg) && w[8..10] == U16(variant) && w[10..12] == U16(changeCount);
  }

  method EncodeTidPoll(
    buffer: PacketBuffer, manager: Tuid, mfg: u16, variant: u16, lo: Tuid, hi: Tuid, endpoint: u16, level: byte)
    returns (r: Status)
    requires buffer.Valid()
    modifies buffer, buffer.buffer
    ensures buffer.Valid()
    ensures level > QUERY_EXTENDED ==> r == InvalidArg && buffer.Contents() == old(buffer.Contents())
    ensures level <= QUERY_EXTENDED ==>
              var t := PollTlv(manager, mfg, variant, lo, hi, endpoint, level);
              Wrote(old(buffer.Contents()), TlvBytes(t), r, buffer.Contents())
  {
    if level > QUERY_EXTENDED {
      return InvalidArg;
    }
    var soem: u32 := mfg * 0x1_0000 + variant;
    var value := manager
      + [soem / 0x100_0000, soem / 0x1_0000 % 0x100, soem / 0x100 % 0x100, soem % 0x100]
      + lo + hi + [endpoint / 0x100, endpoint % 0x100] + [level];
    SoemBytes(mfg, variant);
    assert value == PollTlv(manager, mfg, variant, lo, hi, endpoint, level).value;
    r := EncodeTLV(buffer, Tlv(TID_POLL, value));
  }

  /** The combined 32-bit product code is the two 16-bit codes in a row. */
  lemma SoemBytes(mfg: u16, variant: u16)
    ensures U32(mfg * 0x1_0000 + variant) == U16(mfg) + U16(variant)
  {
    var n := mfg * 0x1_0000 + variant;
    Digits32(n, mfg / 0x100, mfg % 0x100, variant / 0x100, variant % 0x100);
  }

  method EncodeTidPollReply(
    buffer: PacketBuffer, tuid: Tuid, mfg: u16, variant: u16, changeCount: u16) returns (r: Status)
    requires buffer.Valid()
    modifies buffer, buffer.buffer
    ensures buffer.Valid()
    ensures Wrote(old(buffer.Contents()), TlvBytes(PollReplyTlv(tuid, mfg, variant, changeCount)), r, buffer.Contents())
  {
    var soem: u32 := mfg * 0x1_0000 + variant;
    var value := tuid
      + [soem / 0x100_0000, soem / 0x1_0000 % 0x100, soem / 0x100 % 0x100, soem % 0x100]
      + [changeCount / 0x100, changeCount % 0x100];
    SoemBytes(mfg, variant);
    assert value == PollReplyTlv(tuid, mfg, variant, changeCount).value;
    r := EncodeTLV(buffer, Tlv(TID_POLL_REPLY, value));
  }

  /** The blocks of the start-up announcement, in order. */
  function AnnounceTlvs(tuid: Tuid, mfg: u16, variant: u16, version: byte, roles: byte, changeCount: u16): seq<Tlv> {
    [PollReplyTlv(tuid, mfg, variant, changeCount),
     Tlv(TID_RT_PROTOCOL_VERSION, [version]),
     Tlv(TID_RT_ROLE_CAPABILITY, U32(roles)),
     Tlv(TID_RT_ENDPOINT_COUNT, [0, 1]),
     Tlv(TID_RT_MULT, [0])]
  }

  /** Writes the start-up announcement. The firmware arguments of the source's signature are not emitted. */
  method BuildStartupAnnouncePayload(
    payload: PacketBuffer, tuid: Tuid, mfg: u16, variant: u16, version: byte, roles: byte, changeCount: u16)
    returns (r: Status)
    requires payload.Valid()
    modifies payload, payload.buffer
    ensures payload.Valid() && r == Success
    ensures payload.Contents() == StreamBytes(AnnounceTlvs(tuid, mfg, variant, version, roles, changeCount))
  {
    ghost var ts := AnnounceTlvs(tuid, mfg, variant, version, roles, changeCount);
    hide AnnounceTlvs, PollReplyTlv;
    AnnounceUnfolds(tuid, mfg, variant, version, roles, changeCount);
    payload.Reset();
    r := EncodeTidPollReply(payload, tuid, mfg, variant, changeCount);
    if r != Success {
      return;
    }
    r := EncodeTLV(payload, Tlv(TID_RT_PROTOCOL_VERSION, [version]));
    if r != Success {
      return;
    }
    r := EncodeTLV(payload, Tlv(TID_RT_ROLE_CAPABILITY, U32(roles)));
    if r != Success {
      return;
    }
    r := EncodeTLV(payload, Tlv(TID_RT_ENDPOINT_COUNT, [0, 1]));
    if r != Success {
      return;
    }
    r := EncodeTLV(payload, Tlv(TID_RT_MULT, [0]));
  }

  lemma AnnounceUnfolds(tuid: Tuid, mfg: u16, variant: u16, version: byte, roles: byte, changeCount: u16)
    ensures var ts := AnnounceTlvs(tuid, mfg, variant, version, roles, changeCount);
            && |TlvBytes(PollReplyTlv(tuid, mfg, variant, changeCount))| == 16
            && StreamBytes(ts)
               == [] + TlvBytes(PollReplyTlv(tuid, mfg, variant, changeCount))
                  + TlvBytes(Tlv(TID_RT_PROTOCOL_VERSION, [version]))
                  + TlvBytes(Tlv(TID_RT_ROLE_CAPABILITY, U32(roles)))
                  + TlvBytes(Tlv(TID_RT_ENDPOINT_COUNT, [0, 1]))
                  + TlvBytes(Tlv(TID_RT_MULT, [0]))
            && |StreamBytes(ts)| == 40
  {
    hide TlvBytes;
    var ts := AnnounceTlvs(tuid, mfg, variant, version, roles, changeCount);
    StreamLast(ts, 5);
    StreamLast(ts, 4);
    StreamLast(ts, 3);
    StreamLast(ts, 2);
    StreamLast(ts, 1);
    assert ts[..5] == ts;
  }

  lemma StreamLast(ts: seq<Tlv>, n: nat)
    requires 0 < n <= |ts|
    ensures StreamBytes(ts[..n]) == StreamBytes(ts[..n - 1]) + TlvBytes(ts[n - 1])
    ensures StreamBytes(ts[..0]) == []
  {
    hide TlvBytes;
    assert ts[..n] == ts[..n - 1] + [ts[n - 1]];
    StreamAppend(ts[..n - 1], [ts[n - 1]]);
    StreamSingle(ts[n - 1]);
  }

  // ------------------------------------------------------------------ parsing

  datatype TlvParse = Block(tlv: Tlv, next: nat) | NoBlock(next: nat)

  /** One block at `pos`; a failure leaves the cursor after what could be read of the header. */
  function ParseTlv(data: seq<byte>, pos: nat): (p: TlvParse)
    requires pos <= |data|
    ensures pos <= p.next <= |data| && (p.Block? ==> pos + 4 <= p.next)
  {
    if pos + 2 > |data| then NoBlock(pos)
    else if pos + 4 > |data| then NoBlock(pos + 2)
    else
      var length := FromU16(data[pos + 2..pos + 4]);
      if pos + 4 + length > |data| then NoBlock(pos + 4)
      else Block(Tlv(FromU16(data[pos..pos + 2]), data[pos + 4..pos + 4 + length]), pos + 4 + length)
  }

  method ParseTLVBlock(reader: PacketReader) returns (r: Status, t: Tlv)
    requires reader.Valid()
    modifies reader
    ensures reader.Valid()
    ensures var p := ParseTlv(reader.data, old(reader.position));
            && reader.position == p.next
            && r == (if p.Block? then Success else BufferTooSmall)
            && (p.Block? ==> t == p.tlv)
  {
    t := Tlv(0, []);
    var ok, tid := reader.ReadUInt16();
    if !ok {
      return BufferTooSmall, t;
    }
    var length: u16;
    ok, length := reader.ReadUInt16();
    if !ok {
      return BufferTooSmall, t;
    }
    var value := [];
    if length > 0 {
      if !reader.CanRead(length) {
        return BufferTooSmall, t;
      }
      value := reader.data[reader.position..reader.position + length];
      ok := reader.Skip(length);
    }
    t := Tlv(tid, value);
    return Success, t;
  }

  /** All blocks up to the first that cannot be read; `complete` if that is the end of the data. */
  datatype Stream = Stream(tlvs: seq<Tlv>, complete: bool)

  function ReadStream(data: seq<byte>, pos: nat): Stream
    requires pos <= |data|
    decreases |data| - pos
  {
    if pos == |data| then Stream([], true)
    else
      match ParseTlv(data, pos)
      case NoBlock(_) => Stream([], false)
      case Block(t, next) =>
        var rest := ReadStream(data, next);
        Stream([t] + rest.tlvs, rest.complete)
  }

  /** An encoded block reads back as itself, wherever it stands. */
  lemma TlvRoundTrip(data: seq<byte>, pos: nat, t: Tlv)
    requires pos + |TlvBytes(t)| <= |data| && data[pos..pos + |TlvBytes(t)|] == TlvBytes(t)
    ensures ParseTlv(data, pos) == Block(t, pos + |TlvBytes(t)|)
  {
    SplitSlice(data, pos, U16(t.tid) + U16(|t.value|), t.value);
    SplitSlice(data, pos, U16(t.tid), U16(|t.value|));
    U16RoundTrip(t.tid, [0, 0]);
    U16RoundTrip(|t.value|, [0, 0]);
  }

  /** Any list of blocks, read back block by block to the end of the data, is that list. */
  lemma {:induction false} StreamRoundTrip(data: seq<byte>, pos: nat, ts: seq<Tlv>)
    requires pos <= |data| && data[pos..] == StreamBytes(ts)
    ensures ReadStream(data, pos) == Stream(ts, true)
    decreases |ts|
  {
    if ts != [] {
      hide TlvBytes, ParseTlv;
      var bytes, rest := TlvBytes(ts[0]), StreamBytes(ts[1..]);
      assert data[pos..] == data[pos..pos + |bytes + rest|];
      SplitSlice(data, pos, bytes, rest);
      TlvRoundTrip(data, pos, ts[0]);
      StreamRoundTrip(data, pos + |bytes|, ts[1..]);
    }
  }

  // ------------------------------------------------------------- announcement

  datatype DiscoveredNode = DiscoveredNode(
    tuid: Tuid, manufacturer: u16, variant: u16, changeCount: u16,
    firmwareId: u32, firmware: seq<byte>, protocolVersion: byte, roles: u32)

  /** One block of an announcement; None if it is malformed. Unknown blocks are skipped. */
  function Learn(node: DiscoveredNode, t: Tlv): Option<DiscoveredNode> {
    var v := t.value;
    if t.tid == TID_POLL_REPLY then
      if |v| < 12 then None
      else
        Some(node.(tuid := v[..6], manufacturer := FromU16(v[6..8]),
                   variant := FromU16(v[8..10]), changeCount := FromU16(v[10..12])))
    else if t.tid == TID_RT_FIRMWARE_VERSION then
      if |v| < 4 then None else Some(node.(firmwareId := FromU32(v[..4]), firmware := v[4..]))
    else if t.tid == TID_RT_PROTOCOL_VERSION then
      Some(if |v| >= 1 then node.(protocolVersion := v[0]) else node)
    else if t.tid == TID_RT_ROLE_CAPABILITY then
      Some(if |v| >= 4 then node.(roles := FromU32(v[..4])) else if |v| >= 1 then node.(roles := v[0]) else node)
    else Some(node)
  }

  /** What a list of blocks teaches; None if one of them is malformed. */
  function LearnAll(node: DiscoveredNode, ts: seq<Tlv>): Option<DiscoveredNode> {
    if ts == [] then Some(node)
    else
      match LearnAll(node, ts[..|ts| - 1])
      case None => None
      case Some(n) => Learn(n, ts[|ts| - 1])
  }

  ghost predicate MentionsPollReply(ts: seq<Tlv>) {
    exists t :: t in ts && t.tid == TID_POLL_REPLY
  }

  /** Reads an announcement; it must be well formed to its last byte and contain a poll reply. */
  method ParseAnnouncePayload(payload: seq<byte>, initial: DiscoveredNode) returns (ok: bool, node: DiscoveredNode)
    requires |payload| < WRAP16
    ensures var s := ReadStream(payload, 0);
            && ok == (s.complete && LearnAll(initial, s.tlvs).Some? && MentionsPollReply(s.tlvs))
            && (ok ==> Some(node) == LearnAll(initial, s.tlvs))
  {
    hide ParseTlv, Learn, LearnAll;
    var reader := new PacketReader(payload);
    var found := false;
    node := initial;
    ghost var whole := ReadStream(payload, 0);
    ghost var done: seq<Tlv> := [];
    NothingLearned(initial);
    assert [] + whole.tlvs == whole.tlvs;
    while reader.Remaining() > 0
      invariant reader.Valid() && reader.data == payload
      invariant whole == Stream(done + ReadStream(payload, reader.position).tlvs,
                                 ReadStream(payload, reader.position).complete)
      invariant LearnAll(initial, done) == Some(node)
      invariant found == MentionsPollReply(done)
      decreases |payload| - reader.position
    {
      ghost var here := reader.position;
      var r, t := ParseTLVBlock(reader);
      if r != Success {
        return false, node;
      }
      ghost var rest := ReadStream(payload, reader.position);
      Assoc(done, [t], rest.tlvs);
      LearnNext(initial, done, t, rest.tlvs);
      match Learn(node, t) {
        case None => return false, node;
        case Some(n) => node := n;
      }
      if t.tid == TID_POLL_REPLY {
        found := true;
      }
      done := done + [t];
    }
    assert done + [] == done;
    return found, node;
  }

  lemma NothingLearned(node: DiscoveredNode)
    ensures LearnAll(node, []) == Some(node)
  {
  }

  lemma LearnNext(node: DiscoveredNode, done: seq<Tlv>, t: Tlv, rest: seq<Tlv>)
    requires LearnAll(node, done).Some?
    ensures LearnAll(node, done + [t]) == Learn(LearnAll(node, done).value, t)
    ensures LearnAll(node, done + [t]).None? ==> LearnAll(node, done + [t] + rest).None?
    ensures MentionsPollReply(done + [t]) == (MentionsPollReply(done) || t.tid == TID_POLL_REPLY)
    decreases |rest|
  {
    assert (done + [t])[..|done|] == done;
    if rest != [] {
      LearnNext(node, done, t, rest[..|rest| - 1]);
      var all := done + [t] + rest;
      assert all[..|all| - 1] == done + [t] + rest[..|rest| - 1];
    } else {
      assert done + [t] + rest == done + [t];
    }
    assert t in done + [t];
  }

  /**
   A start-up announcement, read by the desktop application, yields exactly the
   TUID, product codes, change count, protocol version and roles announced.
   */
  lemma AnnounceRoundTrip(
    payload: seq<byte>, initial: DiscoveredNode,
    tuid: Tuid, mfg: u16, variant: u16, version: byte, roles: byte, changeCount: u16)
    requires payload == StreamBytes(AnnounceTlvs(tuid, mfg, variant, version, roles, changeCount))
    ensures var s := ReadStream(payload, 0);
            && s.complete && MentionsPollReply(s.tlvs)
            && LearnAll(initial, s.tlvs)
               == Some(initial.(tuid := tuid, manufacturer := mfg, variant := variant, changeCount := changeCount,
                                protocolVersion := version, roles := roles))
  {
    var ts := AnnounceTlvs(tuid, mfg, variant, version, roles, changeCount);
    assert payload[0..] == payload;
    assert ts[0] in ts;
    hide Learn, LearnAll, TlvBytes;
    StreamRoundTrip(payload, 0, ts);
    LearnPollReply(initial, tuid, mfg, variant, changeCount);
    var n1 := initial.(tuid := tuid, manufacturer := mfg, variant := variant, changeCount := changeCount);
    LearnRest(n1, version, roles);
    assert ts[..0] == [] && ts[..0] + [ts[0]] == ts[..1] && ts[..1] + [ts[1]] == ts[..2];
    assert ts[..2] + [ts[2]] == ts[..3] && ts[..3] + [ts[3]] == ts[..4] && ts[..4] + [ts[4]] == ts;
    NothingLearned(initial);
    LearnStep(initial, ts[..0], ts[0]);
    LearnStep(initial, ts[..1], ts[1]);
    LearnStep(initial, ts[..2], ts[2]);
    LearnStep(initial, ts[..3], ts[3]);
    LearnStep(initial, ts[..4], ts[4]);
  }

  lemma LearnStep(node: DiscoveredNode, done: seq<Tlv>, t: Tlv)
    requires LearnAll(node, done).Some?
    ensures LearnAll(node, done + [t]) == Learn(LearnAll(node, done).value, t)
  {
    LearnNext(node, done, t, []);
  }

  lemma LearnRest(n1: DiscoveredNode, version: byte, roles: byte)
    ensures var n2 := n1.(protocolVersion := version);
            var n3 := n2.(roles := roles);
            && Learn(n1, Tlv(TID_RT_PROTOCOL_VERSION, [version])) == Some(n2)
            && Learn(n2, Tlv(TID_RT_ROLE_CAPABILITY, U32(roles))) == Some(n3)
            && Learn(n3, Tlv(TID_RT_ENDPOINT_COUNT, [0, 1])) == Some(n3)
            && Learn(n3, Tlv(TID_RT_MULT, [0])) == Some(n3)
  {
    U32RoundTrip(roles, [0, 0, 0, 0]);
    assert U32(roles)[..4] == U32(roles);
  }

  lemma LearnPollReply(node: DiscoveredNode, tuid: Tuid, mfg: u16, variant: u16, changeCount: u16)
    ensures Learn(node, PollReplyTlv(tuid, mfg, variant, changeCount))
         == Some(node.(tuid := tuid, manufacturer := mfg, variant := variant, changeCount := changeCount))
  {
    var v := PollReplyTlv(tuid, mfg, variant, changeCount).value;
    assert v[..6] == tuid && v[6..8] == U16(mfg) && v[8..10] == U16(variant) && v[10..12] == U16(changeCount);
    U16RoundTrip(mfg, [0, 0]);
    U16RoundTrip(variant, [0, 0]);
    U16RoundTrip(changeCount, [0, 0]);
  }

  /** A block that an announcement may hold. */
  predicate IsTeachable(t: Tlv) {
    (t.tid == TID_POLL_REPLY ==> |t.value| >= 12) && (t.tid == TID_RT_FIRMWARE_VERSION ==> |t.value| >= 4)
  }

  /** Block `k` is the last of its TID. */
  predicate IsLastOf(ts: seq<Tlv>, k: int, tid: u16) {
    0 <= k < |ts| && ts[k].tid == tid && forall j :: k < j < |ts| ==> ts[j].tid != tid
  }

  /** What an arbitrary list of blocks teaches about identity and firmware: what the last block of each TID says. */
  ghost predicate TaughtIdentity(a: DiscoveredNode, ts: seq<Tlv>, n: DiscoveredNode) {
    && (forall k :: IsLastOf(ts, k, TID_POLL_REPLY) ==>
          && |ts[k].value| >= 12 && n.tuid == ts[k].value[..6] && n.manufacturer == FromU16(ts[k].value[6..8])
          && n.variant == FromU16(ts[k].value[8..10]) && n.changeCount == FromU16(ts[k].value[10..12]))
    && ((forall k :: 0 <= k < |ts| ==> ts[k].tid != TID_POLL_REPLY) ==>
          && n.tuid == a.tuid && n.manufacturer == a.manufacturer && n.variant == a.variant
          && n.changeCount == a.changeCount)
    && (forall k :: IsLastOf(ts, k, TID_RT_FIRMWARE_VERSION) ==>
          && |ts[k].value| >= 4 && n.firmwareId == FromU32(ts[k].value[..4]) && n.firmware == ts[k].value[4..])
    && ((forall k :: 0 <= k < |ts| ==> ts[k].tid != TID_RT_FIRMWARE_VERSION) ==>
          n.firmwareId == a.firmwareId && n.firmware == a.firmware)
  }

  lemma TaughtByOneMore(a: DiscoveredNode, ts: seq<Tlv>, n: DiscoveredNode, t: Tlv)
    requires TaughtIdentity(a, ts, n) && Learn(n, t).Some?
    ensures TaughtIdentity(a, ts + [t], Learn(n, t).value)
  {
    var all, m := ts + [t], Learn(n, t).value;
    hide FromU16, FromU32;
    forall k, tid | IsLastOf(all, k, tid)
      ensures if t.tid == tid then k == |ts| else IsLastOf(ts, k, tid) && all[k] == ts[k]
    {
      assert all[|ts|] == t;
      assert forall j :: 0 <= j < |ts| ==> all[j] == ts[j];
    }
    assert all[|ts|] == t;
    assert forall j :: 0 <= j < |ts| ==> all[j] == ts[j];
  }

  /**
   For an arbitrary list of blocks: it teaches something exactly if no poll reply
   and no firmware version in it is too short, and the last of each counts.
   */
  lemma {:induction false} LearnedIsLast(a: DiscoveredNode, ts: seq<Tlv>)
    ensures LearnAll(a, ts).Some? <==> forall k :: 0 <= k < |ts| ==> IsTeachable(ts[k])
    ensures LearnAll(a, ts).Some? ==> TaughtIdentity(a, ts, LearnAll(a, ts).value)
    decreases |ts|
  {
    hide TaughtIdentity;
    if ts == [] {
      assert TaughtIdentity(a, [], a) by {
        NothingTaught(a);
      }
    } else {
      var front, t := ts[..|ts| - 1], ts[|ts| - 1];
      assert ts == front + [t];
      assert forall k :: 0 <= k < |front| ==> front[k] == ts[k];
      LearnedIsLast(a, front);
      if LearnAll(a, front).Some? {
        TeachableIsLearned(LearnAll(a, front).value, t);
        if Learn(LearnAll(a, front).value, t).Some? {
          TaughtByOneMore(a, front, LearnAll(a, front).value, t);
        }
      }
      hide Learn;
    }
  }

  lemma NothingTaught(a: DiscoveredNode)
    ensures TaughtIdentity(a, [], a)
  {
  }

  lemma TeachableIsLearned(n: DiscoveredNode, t: Tlv)
    ensures Learn(n, t).Some? <==> IsTeachable(t)
  {
  }
}
