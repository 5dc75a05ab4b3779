/**
 What a manager gets for a command: for each built poll, GET and SET, the exact
 replies the node attempts, from which endpoint and with what in them.
 */
module NodeAnswers {
  import opened Bytes
  import opened Freshness
  import opened Tids
  import opened UriPath
  import opened Lanes
  import opened SigNetOptions
  import opened TlvStream
  import opened PacketIO
  import opened NodeStore
  import opened NodeDefaults
  import opened NodeReceive
  import opened LostMode
  import P = NodeProfile
  import B = NodeBlocks
  import T = NodeTransaction
  import R = NodeRuns
  import SG = SignedPacket
  import SN = SenderToNode

  /** An applied packet, whose blocks ask for one action, takes the node from `a` to `b`. */
  ghost predicate DoneOne(a: T.Snapshot, e: R.Event, act: B.Action, now: u32, tried: nat, b: T.Snapshot) {
    && e.Packet? && R.Actions(e) == [act]
    && T.PacketDone(a, e.c, e.payload, now, e.flushed, tried, b)
  }

  /** A packet of one action, unfolded. */
  lemma OneAction(a: T.Snapshot, e: R.Event, act: B.Action, now: u32, tried: nat, b: T.Snapshot)
    requires DoneOne(a, e, act, now, tried, b)
    ensures |a.held.blobs| == SLOTS == |b.held.blobs|
    ensures forall i :: 0 <= i < SLOTS ==> |b.held.blobs[i].value| <= BLOB_MAX_BYTES
    ensures var (h, y) := B.Perform(a.held, B.NewTally(e.c.endpoint), act);
            var answers := T.AnswerTo(e.c.tuid, a.held.blobs, act);
            && b.held == B.Held(T.BlobsAfter(h, e.flushed), h.request) && b.count == B.CountAfter(a.count, y)
            && b.life == T.LifeAfterPolls(a.life, [act], now)
            && tried <= |T.PollReplies(h.request)|
            && T.Grew(a.log, b.log, answers + (T.PollReplies(h.request)[..tried]
                                               + T.Confirmation(e.c.tuid, b.held.blobs, y, b.count)))
            && T.PollAnswered(y, b.log, |a.log| + |answers|, h.request, e.flushed, tried)
  {
    hide B.Perform, T.PollReplies, T.AnswerTo, T.Confirmation, T.Grew, T.PollAnswered, T.LifeAfterPolls, ReadStream;
    hide B.Meanings, T.BlobsAfter;
    var actions, y0 := [act], B.NewTally(e.c.endpoint);
    assert actions[..0] == [];
    assert B.PerformAll(a.held, y0, []) == (a.held, y0) && T.GetReplies(e.c.tuid, a.held, y0, []) == [];
    assert B.PerformAll(a.held, y0, actions) == B.Perform(a.held, y0, act);
    var answers := T.AnswerTo(e.c.tuid, a.held.blobs, act);
    assert T.GetReplies(e.c.tuid, a.held, y0, actions) == [] + answers == answers;
    hide B.PerformAll, T.GetReplies;
  }

  /**
   The endpoint a command's TID is for: the one addressed; of a broadcast, the data
   endpoint's TIDs are for 1, others for 0.
   */
  function Destination(endpoint: u16, tid: u16): u16 {
    if endpoint != 0xFFFF then endpoint else if P.IsTidAllowedForEndpoint(tid, 1) then 1 else 0
  }

  // --------------------------------------------------------------------- GETs

  /** A GET, a block without a value, of a TID that its lane and endpoint admit and that may be read, means a GET. */
  lemma GetIsScreened(
    messageId: u16, o: Options, tid: u16, endpoint: u16, s: Setup, hmac: Hmac, packet: seq<byte>)
    requires s.keysValid && SN.IsLocal(endpoint) && o.mode == MODE_HMAC_SHA256
    requires SG.Built(messageId, ManagerSegments(FIXED_SCOPE, s.tuid, endpoint), o, StreamBytes([Tlv(tid, [])]),
                      s.keys.managerLocal, hmac, Success, packet)
    requires SN.MaySet(tid, SN.CommandContext(s, endpoint))
    ensures var p := Screen(packet, s, hmac);
            && p.Some? && MessageOf(p.value.x) == SN.SentBy(o)
            && R.Actions(EventOf(p.value, s, false))
               == [if P.IsTidGetSupported(tid) then B.Get(tid, Destination(endpoint, tid)) else B.Ignored]
  {
    hide Path, Screen, SG.Built, StreamBytes, ManagerSegments, R.Actions, P.IsTidAllowedForEndpoint;
    hide SN.IsLocal, ReadStream, P.IsTidGetSupported, IsTidAllowedForUriLane, UniverseOf;
    T.LocalScope();
    ManagerLaneTids(FIXED_SCOPE, s.tuid, endpoint, tid);
    SN.CommandReachesNode(messageId, o, [Tlv(tid, [])], endpoint, s, hmac, packet);
  }

  /** What the node says to a GET of a TID, in terms of what it holds. */
  ghost predicate Told(log: seq<T.Attempt>, after: seq<T.Attempt>, tid: u16, endpoint: u16, held: seq<byte>) {
    log <= after &&
    if tid == TID_RT_SUPPORTED_TIDS then
      && |after| == |log| + 1 && after[|log|].reply.GetReply?
      && after[|log|].reply.tid == tid && after[|log|].reply.endpoint == endpoint
      && |P.CORE_TIDS| + |P.TABLE| == 28 && |after[|log|].reply.value| == 56
      && forall k :: 0 <= k < 28 ==>
           && after[|log|].reply.value[2 * k] == P.AdvertisedTid(k) / 0x100
           && after[|log|].reply.value[2 * k + 1] == P.AdvertisedTid(k) % 0x100
    else if tid == TID_DG_SECURITY_EVENT then
      |after| == |log| + 1 && after[|log|].reply == T.EventsReply(endpoint)
    else if held != [] then
      |after| == |log| + 1 && after[|log|].reply == T.GetReply(tid, held, endpoint)
    else if tid == TID_DG_LEVEL_FOLDBACK then
      |after| == |log| + 1 && after[|log|].reply == T.GetReply(tid, [0x00], endpoint)
    else after == log
  }

  lemma GrewByNone(log: seq<T.Attempt>, after: seq<T.Attempt>)
    requires T.Grew(log, after, [])
    ensures after == log
  {
  }

  lemma GrewByOne(log: seq<T.Attempt>, after: seq<T.Attempt>, r: T.Reply)
    requires T.Grew(log, after, [r])
    ensures log <= after && |after| == |log| + 1 && after[|log|].reply == r
  {
    assert after[|log| + 0].reply == [r][0];
  }

  /** The log grown by what the node answers to a GET. */
  lemma AnswerTells(log: seq<T.Attempt>, after: seq<T.Attempt>, held: seq<byte>, tid: u16, endpoint: u16)
    requires T.Grew(log, after, T.GetAnswer(held, tid, endpoint))
    ensures Told(log, after, tid, endpoint, held)
  {
    hide P.AdvertisedTid, P.AdvertisedBytes, P.TABLE, P.CORE_TIDS;
    P.ProfileCounts();
    var answer := T.GetAnswer(held, tid, endpoint);
    if answer == [] {
      GrewByNone(log, after);
    } else {
      assert answer == [answer[0]];
      GrewByOne(log, after, answer[0]);
    }
    if tid == TID_RT_SUPPORTED_TIDS {
      forall k | 0 <= k < 28
        ensures SupportedTids()[2 * k] == P.AdvertisedTid(k) / 0x100
        ensures SupportedTids()[2 * k + 1] == P.AdvertisedTid(k) % 0x100
      {
        P.AdvertisedAt(28, k);
      }
    }
  }

  /** A GET changes nothing, and is told exactly what is held, if the TUID can be read. */
  lemma GetIsTold(a: T.Snapshot, e: R.Event, tid: u16, endpoint: u16, now: u32, tried: nat, b: T.Snapshot)
    requires DoneOne(a, e, B.Get(tid, endpoint), now, tried, b)
    ensures b == a.(log := b.log) && !e.flushed
    ensures if e.c.tuid.None? then b.log == a.log
            else Told(a.log, b.log, tid, endpoint, if SlotOf(tid) >= 0 then a.held.blobs[SlotOf(tid)].value else [])
  {
    OneAction(a, e, B.Get(tid, endpoint), now, tried, b);
    T.SingleAction(a.life, B.Get(tid, endpoint), now);
    hide DoneOne, SlotOf, T.PollReplies, Told, T.GetAnswer, T.Grew, T.LifeAfterPolls, T.PollTried;
    var none: seq<T.Reply> := [];
    var answers := T.AnswerTo(e.c.tuid, a.held.blobs, B.Get(tid, endpoint));
    assert tried == 0;
    assert answers + (T.PollReplies(a.held.request)[..0] + none) == answers;
    if e.c.tuid.Some? {
      AnswerTells(a.log, b.log, T.HeldFor(a.held.blobs, tid), tid, endpoint);
    } else {
      GrewByNone(a.log, b.log);
    }
  }

  /**
   From a built GET to the log: it is told what is held, from the endpoint it
   addresses, if its TID may be read and the TUID shown can be; else nothing is
   said. Either way nothing changes.
   */
  lemma GetIsAnsweredFrom(
    messageId: u16, o: Options, tid: u16, endpoint: u16, s: Setup, hmac: Hmac, packet: seq<byte>,
    a: T.Snapshot, flushed: bool, now: u32, tried: nat, b: T.Snapshot)
    requires s.keysValid && SN.IsLocal(endpoint) && o.mode == MODE_HMAC_SHA256
    requires SG.Built(messageId, ManagerSegments(FIXED_SCOPE, s.tuid, endpoint), o, StreamBytes([Tlv(tid, [])]),
                      s.keys.managerLocal, hmac, Success, packet)
    requires SN.MaySet(tid, SN.CommandContext(s, endpoint)) && |a.held.blobs| == SLOTS
    ensures Screen(packet, s, hmac).Some?
    ensures var e := EventOf(Screen(packet, s, hmac).value, s, flushed);
            T.PacketDone(a, e.c, e.payload, now, flushed, tried, b) ==>
              && b == a.(log := b.log) && !flushed
              && if P.IsTidGetSupported(tid) && s.shown.Some? then
                   Told(a.log, b.log, tid, Destination(endpoint, tid),
                        if SlotOf(tid) >= 0 then a.held.blobs[SlotOf(tid)].value else [])
                 else b.log == a.log
  {
    GetIsScreened(messageId, o, tid, endpoint, s, hmac, packet);
    hide SG.Built, Screen, T.PacketDone, Told, R.Actions, StreamBytes, SN.MaySet, SN.IsLocal, P.IsTidGetSupported;
    hide SlotOf, SN.CommandContext, Destination;
    var p := Screen(packet, s, hmac).value;
    var e := EventOf(p, s, flushed);
    if T.PacketDone(a, e.c, e.payload, now, flushed, tried, b) {
      SameActions(p, s, flushed);
      if P.IsTidGetSupported(tid) {
        GetIsTold(a, e, tid, Destination(endpoint, tid), now, tried, b);
      } else {
        IgnoredIsNothing(a, e, now, tried, b);
      }
    }
  }

  /** A packet whose one block is ignored changes nothing and is not answered. */
  lemma IgnoredIsNothing(a: T.Snapshot, e: R.Event, now: u32, tried: nat, b: T.Snapshot)
    requires DoneOne(a, e, B.Ignored, now, tried, b)
    ensures b == a && !e.flushed
  {
    OneAction(a, e, B.Ignored, now, tried, b);
    hide DoneOne, T.PollReplies;
    var none: seq<T.Reply> := [];
    assert none + (T.PollReplies(a.held.request)[..0] + none) == none;
    GrewByNone(a.log, b.log);
  }

  // --------------------------------------------------------------------- SETs

  /** The confirmation of a single SET always fits. */
  lemma OneSetFits(tuid: Tuid, endpoint: u16, t: Tlv, u: Tlv)
    requires |t.value| <= BLOB_MAX_BYTES && |u.value| == 3
    ensures T.ReplyFits(tuid, endpoint, [t, u])
  {
    T.LocalScope();
    SG.NodeLength(FIXED_SCOPE, tuid, endpoint);
    hide Path, SG.LongSegments, TlvBytes;
    StreamAppend([t], [u]);
    StreamSingle(t);
    StreamSingle(u);
    assert [t] + [u] == [t, u];
    hide StreamBytes;
  }

  /** What an accepted SET leaves: its value, for the interface to show and with nothing for the manager to learn. */
  ghost predicate Stored(a: seq<Blob>, b: seq<Blob>, tid: u16, value: seq<byte>) {
    && |a| == |b| == SLOTS && 0 <= SlotOf(tid) < SLOTS
    && forall i :: 0 <= i < SLOTS ==>
         if i == SlotOf(tid) then b[i].tid == tid && b[i].value == value && b[i].uiStale && !b[i].managerStale
         else b[i] == a[i]
  }

  lemma ConfirmationOfOne(s: seq<Blob>, tid: u16, count: u16)
    requires |s| == SLOTS && forall i :: 0 <= i < SLOTS ==> |s[i].value| <= BLOB_MAX_BYTES
    requires 0 <= SlotOf(tid) < SLOTS && s[SlotOf(tid)].value != []
    ensures T.ReplyBlocks(s, [tid], count) == [Tlv(tid, s[SlotOf(tid)].value), Tlv(TID_SET_REPLY, [0x00] + U16(count))]
  {
    hide SlotOf;
    assert [tid][..0] == [];
    assert T.ValueBlocks(s, []) == [];
  }

  lemma AcceptedConfirms(shown: Option<Tuid>, s: seq<Blob>, tid: u16, value: seq<byte>, endpoint: u16, count: u16)
    requires |s| == SLOTS && forall i :: 0 <= i < SLOTS ==> |s[i].value| <= BLOB_MAX_BYTES
    requires 0 <= SlotOf(tid) < SLOTS && s[SlotOf(tid)].value == value != []
    ensures T.SetReplies(shown, s, [tid], endpoint, count)
         == if shown.None? then []
            else [T.SetReply([Tlv(tid, value), Tlv(TID_SET_REPLY, [0x00] + U16(count))], endpoint)]
  {
    hide SlotOf, T.ReplyFits, T.ReplyBlocks;
    ConfirmationOfOne(s, tid, count);
    if shown.Some? {
      OneSetFits(shown.value, endpoint, Tlv(tid, value), Tlv(TID_SET_REPLY, [0x00] + U16(count)));
    }
  }

  /** CHANGE_COUNT after an accepted SET. */
  function Counted(s: seq<Blob>, tid: u16, value: seq<byte>, count: u16): u16 {
    if P.IsTidPersistent(tid) && 0 <= SlotOf(tid) < |s| && s[SlotOf(tid)].value != value
    then (count + 1) % WRAP16 else count
  }

  /** The one reply to an accepted SET: its TID and value, then the new count. */
  ghost predicate Confirmed(
    log: seq<T.Attempt>, after: seq<T.Attempt>, tid: u16, value: seq<byte>, count: u16, endpoint: u16)
  {
    && |value| <= BLOB_MAX_BYTES && log <= after && |after| == |log| + 1
    && after[|log|].reply == T.SetReply([Tlv(tid, value), Tlv(TID_SET_REPLY, [0x00] + U16(count))], endpoint)
  }

  /**
   The whole effect of a single SET. One that is refused changes nothing and is not
   answered. One that is accepted is stored, counted exactly if it changes a
   persistent parameter, and confirmed if the TUID can be read.
   */
  ghost predicate SetDone(
    a: T.Snapshot, b: T.Snapshot, shown: Option<Tuid>, tid: u16, value: seq<byte>, endpoint: u16)
  {
    if !B.SetAllowed(tid, value) then b == a
    else
      && Stored(a.held.blobs, b.held.blobs, tid, value) && b.count == Counted(a.held.blobs, tid, value, a.count)
      && b.life == a.life && b.held.request == a.held.request
      && if shown.None? then b.log == a.log else Confirmed(a.log, b.log, tid, value, b.count, endpoint)
  }

  /** What an accepted SET does to the parameters and to the packet's account. */
  lemma AcceptedIsStored(h: B.Held, tid: u16, value: seq<byte>, endpoint: u16, e: u16, count: u16)
    requires |h.blobs| == SLOTS && B.SetAllowed(tid, value)
    ensures |value| <= BLOB_MAX_BYTES && value != []
    ensures var (h', y) := B.Perform(h, B.NewTally(e), B.Set(tid, value, endpoint));
            && Stored(h.blobs, h'.blobs, tid, value) && h'.request == h.request
            && B.Commits(y) && y.tids == [tid] && y.replyEndpoint == endpoint && !y.polled
            && B.CountAfter(count, y) == Counted(h.blobs, tid, value, count)
  {
    hide SlotFrom, SLOT_TIDS, P.IsTextTid, P.IsTidPersistent;
    assert [] + [tid] == [tid];
  }

  lemma SetIsDone(
    a: T.Snapshot, e: R.Event, tid: u16, value: seq<byte>, endpoint: u16, now: u32, tried: nat, b: T.Snapshot)
    requires DoneOne(a, e, B.Set(tid, value, endpoint), now, tried, b)
    ensures !e.flushed && SetDone(a, b, e.c.tuid, tid, value, endpoint)
  {
    OneAction(a, e, B.Set(tid, value, endpoint), now, tried, b);
    T.SingleAction(a.life, B.Set(tid, value, endpoint), now);
    hide DoneOne, T.PollReplies, T.Grew, T.SetReplies, T.LifeAfterPolls, SlotOf, Stored, Counted, Confirmed;
    if B.SetAllowed(tid, value) {
      AcceptedIsStored(a.held, tid, value, endpoint, e.c.endpoint, a.count);
      hide B.SetAllowed, B.Perform, B.CountAfter;
      AcceptedIsConfirmed(a.log, b.log, e.c.tuid, b.held, tid, value, endpoint, b.count) by {
        StoredValue(a.held.blobs, b.held.blobs, tid, value);
      }
    } else {
      hide B.SetAllowed, B.CountAfter;
      var none: seq<T.Reply> := [];
      assert none + (T.PollReplies(a.held.request)[..0] + none) == none;
      GrewByNone(a.log, b.log);
    }
  }

  lemma StoredValue(a: seq<Blob>, b: seq<Blob>, tid: u16, value: seq<byte>)
    requires Stored(a, b, tid, value)
    ensures |b| == SLOTS && 0 <= SlotOf(tid) < SLOTS && b[SlotOf(tid)].value == value
  {
    hide SlotOf;
  }

  lemma AcceptedIsConfirmed(
    log: seq<T.Attempt>, after: seq<T.Attempt>, shown: Option<Tuid>, h: B.Held, tid: u16, value: seq<byte>,
    endpoint: u16, count: u16)
    requires |h.blobs| == SLOTS && forall i :: 0 <= i < SLOTS ==> |h.blobs[i].value| <= BLOB_MAX_BYTES
    requires 0 <= SlotOf(tid) < SLOTS && h.blobs[SlotOf(tid)].value == value != []
    requires var none: seq<T.Reply> := [];
             var replies := T.SetReplies(shown, h.blobs, [tid], endpoint, count);
             T.Grew(log, after, none + (T.PollReplies(h.request)[..0] + replies))
    ensures if shown.None? then after == log else Confirmed(log, after, tid, value, count, endpoint)
  {
    hide SlotOf, T.PollReplies, T.SetReplies, T.Grew;
    AcceptedConfirms(shown, h.blobs, tid, value, endpoint, count);
    var none: seq<T.Reply> := [];
    var replies := T.SetReplies(shown, h.blobs, [tid], endpoint, count);
    assert none + (T.PollReplies(h.request)[..0] + replies) == replies;
    if shown.None? {
      GrewByNone(log, after);
    } else {
      GrewByOne(log, after, replies[0]);
    }
  }

  /**
   From a built SET to store and log: an allowed value is stored, counted and
   confirmed, from the endpoint addressed, or for a broadcast from 1 if the TID
   belongs to the data endpoint and from 0 if not; any other leaves no trace.
   */
  lemma SetIsConfirmedFrom(
    messageId: u16, o: Options, tid: u16, value: TlvValue, endpoint: u16, s: Setup, hmac: Hmac, packet: seq<byte>,
    a: T.Snapshot, flushed: bool, now: u32, tried: nat, b: T.Snapshot)
    requires s.keysValid && SN.IsLocal(endpoint) && o.mode == MODE_HMAC_SHA256 && value != []
    requires SG.Built(messageId, ManagerSegments(FIXED_SCOPE, s.tuid, endpoint), o, StreamBytes([Tlv(tid, value)]),
                      s.keys.managerLocal, hmac, Success, packet)
    requires SN.MaySet(tid, SN.CommandContext(s, endpoint))
    ensures Screen(packet, s, hmac).Some?
    ensures var e := EventOf(Screen(packet, s, hmac).value, s, flushed);
            T.PacketDone(a, e.c, e.payload, now, flushed, tried, b) ==>
              !flushed && SetDone(a, b, s.shown, tid, value, Destination(endpoint, tid))
  {
    hide SG.Built, Screen, T.PacketDone, SetDone, R.Actions, StreamBytes, SN.MaySet, SN.IsLocal;
    hide P.IsTidAllowedForEndpoint, ManagerSegments;
    SN.SetIsScreened(messageId, o, tid, value, endpoint, s, hmac, packet);
    var p := Screen(packet, s, hmac).value;
    var e := EventOf(p, s, flushed);
    if T.PacketDone(a, e.c, e.payload, now, flushed, tried, b) {
      SameActions(p, s, flushed);
      SetIsDone(a, e, tid, value, Destination(endpoint, tid), now, tried, b);
    }
  }

  // -------------------------------------------------------------------- polls

  /**
   What the node says to a poll: from one endpoint, or from the root and, once that
   went out, from the data endpoint.
   */
  ghost predicate Answered(
    log: seq<T.Attempt>, after: seq<T.Attempt>, level: byte, root: bool, data: bool, allSent: bool)
  {
    && log <= after && |after| > |log|
    && after[|log|].reply == T.PollReply(level, if root then 0 else 1)
    && if root && data && after[|log|].sent then
         && |after| == |log| + 2 && after[|log| + 1].reply == T.PollReply(level, 1)
         && allSent == after[|log| + 1].sent
       else
         |after| == |log| + 1 && allSent == (after[|log|].sent && !(root && data))
  }

  lemma TriedAnswers(log: seq<T.Attempt>, after: seq<T.Attempt>, request: B.Request, flushed: bool, tried: nat)
    requires request.root || request.data
    requires tried <= |T.PollReplies(request)| && T.Grew(log, after, T.PollReplies(request)[..tried]) && tried > 0
    requires T.PollTried(after, |log|, request, flushed, tried)
    ensures Answered(log, after, request.level, request.root, request.data, flushed)
  {
    var replies := T.PollReplies(request);
    assert after[|log| + 0].reply == replies[..tried][0];
    if tried > 1 {
      assert after[|log| + 1].reply == replies[..tried][1];
    }
  }

  /**
   A poll that matches is answered from the endpoints and at the level it asks for,
   one that does not is not answered; either restarts the Lost Mode timer and ends
   Lost Mode. Nothing else changes but the manager's flags, which are cleared
   exactly if every reply went out.
   */
  lemma PollIsDone(
    a: T.Snapshot, e: R.Event, request: Option<B.Request>, now: u32, tried: nat, b: T.Snapshot)
    requires DoneOne(a, e, B.Polled(request), now, tried, b)
    requires request.Some? ==> request.value.root || request.value.data
    ensures match request
            case None => b.log == a.log && !e.flushed && b.held == a.held
            case Some(r) => Answered(a.log, b.log, r.level, r.root, r.data, e.flushed) && b.held.request == r
    ensures b.count == a.count && |a.held.blobs| == |b.held.blobs| == SLOTS
    ensures forall i :: 0 <= i < SLOTS ==>
              b.held.blobs[i]
              == if e.flushed && Searched(i) then a.held.blobs[i].(managerStale := false) else a.held.blobs[i]
    ensures b.life == if a.life.keysValid then a.life.(lost := false, lastPoll := now) else a.life
  {
    OneAction(a, e, B.Polled(request), now, tried, b);
    T.SingleAction(a.life, B.Polled(request), now);
    hide DoneOne, T.PollReplies, T.LifeAfterPolls, Answered, T.Grew, T.PollTried;
    match request
    case None =>
      var none: seq<T.Reply> := [];
      assert none + (T.PollReplies(b.held.request)[..0] + none) == none;
      GrewByNone(a.log, b.log);
    case Some(r) =>
      var none: seq<T.Reply> := [];
      var replies := T.PollReplies(r)[..tried];
      assert none + (replies + none) == replies;
      TriedAnswers(a.log, b.log, r, e.flushed, tried);
  }

  /**
   From an encoded poll to the log: a node whose TUID lies in the poll's range
   attempts, at the level asked for, exactly one reply from endpoint 0 or 1 if that
   is the one named, and for the broadcast address first one from 0 and then, if
   that went out, one from 1. Any other poll is not answered.
   */
  lemma PollIsAnsweredFrom(
    manager: Tuid, mfg: u16, variant: u16, lo: Tuid, hi: Tuid, endpoint: u16, level: byte,
    session: u32, seqNum: u32, messageId: u16, s: Setup, hmac: Hmac, r: Status, packet: seq<byte>,
    a: T.Snapshot, flushed: bool, now: u32, tried: nat, b: T.Snapshot)
    requires level <= QUERY_EXTENDED && s.keysValid && s.shown == Some(s.tuid)
    requires SG.Built(messageId, PollSegments(FIXED_SCOPE), SG.SenderOptions(manager, 0, 0, session, seqNum),
                      TlvBytes(PollTlv(manager, mfg, variant, lo, hi, endpoint, level)),
                      s.keys.managerGlobal, hmac, r, packet)
    ensures Screen(packet, s, hmac).Some?
    ensures var e := EventOf(Screen(packet, s, hmac).value, s, flushed);
            T.PacketDone(a, e.c, e.payload, now, flushed, tried, b) ==>
              var root, data := endpoint == 0 || endpoint == 0xFFFF, endpoint == 1 || endpoint == 0xFFFF;
              if B.Number(lo) <= B.Number(s.tuid) <= B.Number(hi) && (root || data)
              then Answered(a.log, b.log, level, root, data, flushed) else b.log == a.log && !flushed
  {
    SN.PollReachesNode(manager, mfg, variant, lo, hi, endpoint, level, session, seqNum, messageId, s, hmac, r, packet);
    B.PollIsAnswered(manager, mfg, variant, lo, hi, endpoint, level, s.tuid);
    hide SG.Built, Screen, T.PacketDone, Answered, B.Number, B.PollTarget, R.Actions, TlvBytes, PollTlv;
    var p := Screen(packet, s, hmac).value;
    var e := EventOf(p, s, flushed);
    if T.PacketDone(a, e.c, e.payload, now, flushed, tried, b) {
      SameActions(p, s, flushed);
      PollIsDone(a, e, R.Actions(e)[0].request, now, tried, b);
    }
  }

  /** Whether poll replies go out makes no difference to what a packet asks for. */
  lemma SameActions(p: Screened, s: Setup, flushed: bool)
    ensures R.Actions(EventOf(p, s, flushed)) == R.Actions(EventOf(p, s, false))
  {
  }

  // --------------------------------------------------------- what is left out

  /**
   Blocks that do not belong where they are sent are ignored: in a command, TIDs of
   other lanes and of the other endpoint; under the poll URI, anything but a poll;
   under a level URI, anything but levels, and levels of another universe than the
   node's or of none or more than 512 slots.
   */
  lemma OutsidersAreIgnored(c: B.Context, t: Tlv, tuid: Tuid, universe: u16)
    ensures c.uri == Path(ManagerSegments(FIXED_SCOPE, tuid, c.endpoint)) ==>
              SN.MaySet(t.tid, c) || t.tid == TID_POLL || B.Meaning(c, t) == B.Ignored
    ensures c.uri == Path(PollSegments(FIXED_SCOPE)) && t.tid != TID_POLL ==> B.Meaning(c, t) == B.Ignored
    ensures c.uri == Path(LevelSegments(FIXED_SCOPE, universe)) && P.MIN_UNIVERSE <= universe <= P.MAX_UNIVERSE ==>
              B.Meaning(c, t) == if t.tid == TID_LEVEL && universe == c.universe && 1 <= |t.value| <= 512
                                 then B.Levels(t.value) else B.Ignored
  {
    T.LocalScope();
    LanesCarryTheirOwn(FIXED_SCOPE, tuid, c.endpoint, t.tid);
    LanesCarryTheirOwn(FIXED_SCOPE, tuid, universe, t.tid);
    if P.MIN_UNIVERSE <= universe <= P.MAX_UNIVERSE {
      UniverseRoundTrip(FIXED_SCOPE, universe);
    }
    hide Path, IsTidAllowedForUriLane, UniverseOf, P.IsTidAllowedForEndpoint;
    hide ManagerSegments, LevelSegments, PollSegments;
  }
}
