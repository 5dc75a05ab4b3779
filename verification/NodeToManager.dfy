/**
 From node to manager: the replies a node builds are extracted and verified with
 the citizen key under its own URI, and their blocks say what the node holds.
 */
module NodeToManager {
  import opened Bytes
  import opened Freshness
  import opened Text
  import opened Tids
  import opened PacketIO
  import opened CoapWalk
  import opened UriPath
  import opened Lanes
  import opened SigNetOptions
  import opened TlvStream
  import opened SignedPacket
  import opened Receive
  import opened NodeStore
  import opened NodeDefaults
  import opened PollReply
  import PR = PollReply
  import B = NodeBlocks
  import T = NodeTransaction

  const RECEIVE_CAPACITY: nat := 128

  /**
   What a manager makes of a packet: from the node's endpoint, in the citizen
   lane, signed, and holding these blocks.
   */
  ghost predicate Delivers(
    packet: seq<byte>, tuid: Tuid, e: u16, session: u32, seqNum: u32, key: Key, hmac: Hmac, ts: seq<Tlv>)
  {
    packet != [] &&
    var x := Extract(packet, TokenLength(packet), FIXED_SCOPE, RECEIVE_CAPACITY);
    && x.Some?
    && x.value.uri == Path(NodeSegments(FIXED_SCOPE, tuid, e)) && EndpointOf(x.value.uri) == Some(e)
    && SelectValidationKey(x.value.uri) == Some(CitizenKey)
    && x.value.options.senderId == SenderIdOf(tuid, e)
    && x.value.options.session == session && x.value.options.seqNum == seqNum
    && x.value.payload.Some?
    && ReadStream(x.value.payload.value, 0) == Stream(ts, true)
    && Verify(x.value.uri, x.value.options, x.value.payload.value, key, hmac) == Success
  }

  /** Any list of blocks that a node sends from one of its endpoints is delivered as that list. */
  lemma ReplyEndToEnd(
    tuid: Tuid, e: u16, ts: seq<Tlv>, session: u32, seqNum: u32, key: Key, messageId: u16, hmac: Hmac,
    packet: seq<byte>)
    requires Built(messageId, NodeSegments(FIXED_SCOPE, tuid, e), SenderOptions(tuid, e, 0, session, seqNum),
                   StreamBytes(ts), key, hmac, Success, packet)
    ensures Delivers(packet, tuid, e, session, seqNum, key, hmac, ts)
  {
    var segs, o := NodeSegments(FIXED_SCOPE, tuid, e), SenderOptions(tuid, e, 0, session, seqNum);
    T.LocalScope();
    NodeLength(FIXED_SCOPE, tuid, e);
    NodeLane(FIXED_SCOPE, tuid, e);
    EndpointRoundTrip(FIXED_SCOPE, tuid, e);
    SegmentsArePlain(FIXED_SCOPE, e, tuid);
    assert |FIXED_SCOPE| == 5;
    hide Path, Extract, Verify, Built, StreamBytes, ReadStream, HmacInput, Decimal, ToHex;
    hide SelectValidationKey, EndpointOf;
    hide Collides;
    EndToEnd(messageId, segs, o, StreamBytes(ts), key, hmac, FIXED_SCOPE, RECEIVE_CAPACITY, packet);
    assert StreamBytes(ts)[0..] == StreamBytes(ts);
    StreamRoundTrip(StreamBytes(ts), 0, ts);
  }

  /**
   A poll reply from node to manager: whenever the degrade loop ends with a
   packet, it is delivered as the blocks of the greatest level that fits, and
   every one of them says what the node holds.
   */
  lemma PollReplyReachesManager(
    level: nat, n: Identity, s: seq<Blob>, e: u16, used: nat, session: u32, seqNum: u32, key: Key, messageId: u16,
    hmac: Hmac, packet: seq<byte>)
    requires Sized(s) && PR.Settled(level, FIXED_SCOPE, n, s, e, Success, used)
    requires var segs, o, payload := NodeSegments(FIXED_SCOPE, n.tuid, e), SenderOptions(n.tuid, e, 0, session, seqNum),
                                     StreamBytes(ReplyTlvs(used, n, s, e));
             && (forall i :: 0 <= i < |segs| ==> |segs[i]| < WRAP16)
             && packet == PacketBytes(messageId, segs, o, Sign(hmac, key, Path(segs), o, payload), payload)
    ensures Delivers(packet, n.tuid, e, session, seqNum, key, hmac, ReplyTlvs(used, n, s, e))
    ensures AllTruthful(n, s, ReplyTlvs(used, n, s, e))
    ensures used <= level && forall l :: used < l <= level ==>
              FirmwareTooLong(l, s, e) || !PacketFits(l, FIXED_SCOPE, n, s, e)
  {
    T.LocalScope();
    hide StreamBytes, ReplyTlvs, AllTruthful, Delivers, Path, Built, FirmwareTooLong, PacketBytes, PacketFits;
    ReplyIsTruthful(used, n, s, e);
    SettlesOnGreatestFit(level, FIXED_SCOPE, n, s, e, Success, used);
    FittingIsBuilt(n, e, StreamBytes(ReplyTlvs(used, n, s, e)), session, seqNum, key, messageId, hmac, packet) by {
      FitsMeans(used, n, s, e);
    }
    ReplyEndToEnd(n.tuid, e, ReplyTlvs(used, n, s, e), session, seqNum, key, messageId, hmac, packet);
  }

  lemma FitsMeans(level: nat, n: Identity, s: seq<Blob>, e: u16)
    requires Sized(s) && PacketFits(level, FIXED_SCOPE, n, s, e)
    ensures ReplySize(FIXED_SCOPE, n, e, |StreamBytes(ReplyTlvs(level, n, s, e))|) <= MAX_UDP_PAYLOAD
  {
  }

  /** A packet with room for its payload is what the builder builds. */
  lemma FittingIsBuilt(
    n: Identity, e: u16, payload: seq<byte>, session: u32, seqNum: u32, key: Key, messageId: u16, hmac: Hmac,
    packet: seq<byte>)
    requires ReplySize(FIXED_SCOPE, n, e, |payload|) <= MAX_UDP_PAYLOAD
    requires var segs, o := NodeSegments(FIXED_SCOPE, n.tuid, e), SenderOptions(n.tuid, e, 0, session, seqNum);
             && (forall i :: 0 <= i < |segs| ==> |segs[i]| < WRAP16)
             && packet == PacketBytes(messageId, segs, o, Sign(hmac, key, Path(segs), o, payload), payload)
    ensures Built(messageId, NodeSegments(FIXED_SCOPE, n.tuid, e), SenderOptions(n.tuid, e, 0, session, seqNum),
                  payload, key, hmac, Success, packet)
  {
    T.LocalScope();
    NodeLength(FIXED_SCOPE, n.tuid, e);
    hide Decimal, ToHex, Path, PacketBytes, LongSegments;
    var segs, o := NodeSegments(FIXED_SCOPE, n.tuid, e), SenderOptions(n.tuid, e, 0, session, seqNum);
    PacketSize(messageId, segs, o, Sign(hmac, key, Path(segs), o, payload), payload);
  }

  /** The parameters after a packet. */
  function StoreAfter(h: B.Held, c: B.Context, ts: seq<Tlv>, flushed: bool): (s: seq<Blob>)
    requires |h.blobs| == SLOTS
    ensures |s| == SLOTS
  {
    T.BlobsAfter(B.PerformAll(h, B.NewTally(c.endpoint), B.Meanings(c, ts)).0, flushed)
  }

  /** The confirmation of a packet. */
  ghost function ConfirmationOf(h: B.Held, c: B.Context, ts: seq<Tlv>, flushed: bool, count: u16): seq<Tlv>
    requires |h.blobs| == SLOTS && Sized(StoreAfter(h, c, ts, flushed))
  {
    T.ReplyBlocks(StoreAfter(h, c, ts, flushed),
                  B.PerformAll(h, B.NewTally(c.endpoint), B.Meanings(c, ts)).1.tids, count)
  }

  /** The value last written by each of the first 32 accepted SETs, then CHANGE_COUNT. */
  ghost predicate Confirms(actions: seq<B.Action>, count: u16, blocks: seq<Tlv>) {
    var tids := B.FirstOf(B.AcceptedTids(actions), B.MAX_SET_TIDS);
    && |blocks| == |tids| + 1
    && (forall k :: 0 <= k < |tids| ==>
          blocks[k].tid == tids[k] && B.LastWrite(actions, SlotOf(tids[k])) == Some(blocks[k].value))
    && blocks[|tids|] == Tlv(TID_SET_REPLY, [0x00] + U16(count))
  }

  /**
   A confirmation from node to manager: it is delivered as one block for each of
   the first 32 accepted SETs of the packet it answers, with the value last
   written to that parameter, and then CHANGE_COUNT.
   */
  lemma ConfirmationReachesManager(
    h: B.Held, c: B.Context, ts: seq<Tlv>, flushed: bool, count: u16, e: u16,
    tuid: Tuid, session: u32, seqNum: u32, key: Key, messageId: u16, hmac: Hmac, packet: seq<byte>)
    requires |h.blobs| == SLOTS && Sized(StoreAfter(h, c, ts, flushed))
    requires Built(messageId, NodeSegments(FIXED_SCOPE, tuid, e), SenderOptions(tuid, e, 0, session, seqNum),
                   StreamBytes(ConfirmationOf(h, c, ts, flushed, count)), key, hmac, Success, packet)
    ensures Delivers(packet, tuid, e, session, seqNum, key, hmac, ConfirmationOf(h, c, ts, flushed, count))
    ensures Confirms(B.Meanings(c, ts), count, ConfirmationOf(h, c, ts, flushed, count))
  {
    hide StreamBytes, Built, Delivers;
    ReplyEndToEnd(tuid, e, ConfirmationOf(h, c, ts, flushed, count), session, seqNum, key, messageId, hmac, packet);
    ConfirmationConfirms(h, c, ts, flushed, count);
    hide ConfirmationOf, StoreAfter, Confirms;
  }

  lemma ConfirmationConfirms(h: B.Held, c: B.Context, ts: seq<Tlv>, flushed: bool, count: u16)
    requires |h.blobs| == SLOTS && Sized(StoreAfter(h, c, ts, flushed))
    ensures Confirms(B.Meanings(c, ts), count, ConfirmationOf(h, c, ts, flushed, count))
  {
    hide B.PerformAll, B.Meanings, B.LastWrite, B.AcceptedTids, SlotOf, U16, T.ReplyBlocks, T.BlobsAfter;
    T.ConfirmationIsTruthful(h, c, ts, flushed, count);
  }
}
