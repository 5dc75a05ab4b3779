/**
 The node's handling of one accepted packet: its blocks in order, the poll
 reply, CHANGE_COUNT and the confirmation. Whether an attempt to send succeeds is
 left open.
 */
module NodeTransaction {
  import opened Bytes
  import opened Freshness
  import opened Tids
  import opened PacketIO
  import opened TlvStream
  import opened NodeProfile
  import opened NodeStore
  import opened NodeDefaults
  import opened NodeBlocks
  import opened LostMode
  import opened Sender
  import opened SigNetOptions
  import L = Lanes
  import U = UriPath
  import PR = PollReply
  import SG = SignedPacket

  /** A reply the node attempts: its content and the endpoint whose URI it is sent from. */
  datatype Reply =
    | GetReply(tid: u16, value: seq<byte>, endpoint: u16)
    | EventsReply(endpoint: u16)
    | PollReply(level: byte, endpoint: u16)
    | SetReply(blocks: seq<Tlv>, endpoint: u16)
    | Announce(lostMode: bool)
    | SecurityEvent(code: nat, count: u32)

  /** One attempt to send, with the counters the packet would carry. */
  datatype Attempt = Attempt(reply: Reply, mark: Mark, messageId: u16, sent: bool)

  /** A node's counters start at session 1, sequence 1, message 1. */
  const COUNTERS: Transmitter := Transmitter(NodeRule, 1)

  /** The message number after `n` packets. */
  function MessageNumber(n: nat): u16 {
    (1 + n) % WRAP16
  }

  function SentCount(log: seq<Attempt>): nat {
    if log == [] then 0 else SentCount(log[..|log| - 1]) + if log[|log| - 1].sent then 1 else 0
  }

  /** Every attempt carries the pair and the message number that are next after what was sent before it. */
  ghost predicate Numbered(log: seq<Attempt>) {
    forall i :: 0 <= i < |log| ==>
      log[i].mark == Nth(COUNTERS, SentCount(log[..i])) && log[i].messageId == MessageNumber(SentCount(log[..i]))
  }

  /** Logging an attempt that carries the next counters keeps the log numbered. */
  lemma LogNext(log: seq<Attempt>, a: Attempt)
    requires Numbered(log) && a.mark == Nth(COUNTERS, SentCount(log)) && a.messageId == MessageNumber(SentCount(log))
    ensures Numbered(log + [a]) && SentCount(log + [a]) == SentCount(log) + if a.sent then 1 else 0
  {
    hide Nth, MessageNumber;
    var next := log + [a];
    assert next[..|log|] == log;
    assert forall i :: 0 <= i < |log| ==> next[..i] == log[..i];
  }

  /** What the counters become after a packet goes out. */
  lemma CountersNext(n: nat, mark: Mark)
    requires mark == Nth(COUNTERS, n)
    ensures Nth(COUNTERS, n + 1) == Advance(NodeRule, mark)
    ensures MessageNumber(n + 1) == (MessageNumber(n) + 1) % WRAP16
  {
    assert Nth(COUNTERS, n + 1) == Advance(NodeRule, Nth(COUNTERS, n));
    hide Nth, Advance;
    var m := 1 + n;
    assert m == WRAP16 * (m / WRAP16) + m % WRAP16;
  }

  /** The log has grown by one attempt for each of these replies. */
  ghost predicate Grew(before: seq<Attempt>, after: seq<Attempt>, replies: seq<Reply>) {
    && before <= after && |after| == |before| + |replies|
    && forall i :: 0 <= i < |replies| ==> after[|before| + i].reply == replies[i]
  }

  lemma GrewBoth(a: seq<Attempt>, b: seq<Attempt>, c: seq<Attempt>, x: seq<Reply>, y: seq<Reply>)
    requires Grew(a, b, x) && Grew(b, c, y)
    ensures Grew(a, c, x + y)
  {
    forall i | 0 <= i < |x + y|
      ensures c[|a| + i].reply == (x + y)[i]
    {
      if i >= |x| {
        assert c[|b| + (i - |x|)].reply == y[i - |x|];
      }
    }
  }

  /** What is held for a TID, by the node's own lookup; nothing if it has no slot. */
  function HeldFor(s: seq<Blob>, tid: u16): seq<byte>
    requires |s| == SLOTS
  {
    var i := SlotOf(tid);
    if i >= 0 then s[i].value else []
  }

  /**
   The reply to a GET: supported TIDs come from the profile, security events from
   their log, an empty level foldback is reported as one zero byte, and any other
   empty parameter is not answered.
   */
  function GetAnswer(held: seq<byte>, tid: u16, endpoint: u16): seq<Reply> {
    if tid == TID_RT_SUPPORTED_TIDS then [GetReply(tid, SupportedTids(), endpoint)]
    else if tid == TID_DG_SECURITY_EVENT then [EventsReply(endpoint)]
    else if tid == TID_DG_LEVEL_FOLDBACK then [GetReply(tid, if held != [] then held else [0x00], endpoint)]
    else if held != [] then [GetReply(tid, held, endpoint)]
    else []
  }

  /** The replies to one action: only a GET has any, and only if the TUID shown can be read. */
  function AnswerTo(shown: Option<Tuid>, s: seq<Blob>, a: Action): seq<Reply>
    requires |s| == SLOTS
  {
    if a.Get? && shown.Some? then GetAnswer(HeldFor(s, a.tid), a.tid, a.endpoint) else []
  }

  /** The replies to the GETs among some actions, each with what is held when it is reached. */
  function GetReplies(shown: Option<Tuid>, h: Held, y: Tally, actions: seq<Action>): seq<Reply>
    requires |h.blobs| == SLOTS
  {
    if actions == [] then []
    else
      var front := actions[..|actions| - 1];
      GetReplies(shown, h, y, front) + AnswerTo(shown, PerformAll(h, y, front).0.blobs, actions[|actions| - 1])
  }

  /**
   A GET is answered with the last value written to its parameter, in the same
   packet or before it: whole; not at all if there is none, except that an empty
   level foldback is answered with one zero byte.
   */
  lemma GetTellsLastWrite(shown: Option<Tuid>, h: Held, y: Tally, actions: seq<Action>, k: nat)
    requires |h.blobs| == SLOTS && k < |actions| && actions[k].Get? && shown.Some? && SlotOf(actions[k].tid) >= 0
    ensures var tid, endpoint := actions[k].tid, actions[k].endpoint;
            var value := Otherwise(LastWrite(actions[..k], SlotOf(tid)), h.blobs[SlotOf(tid)].value);
            GetReplies(shown, h, y, actions[..k + 1])
            == GetReplies(shown, h, y, actions[..k])
               + if tid == TID_RT_SUPPORTED_TIDS then [GetReply(tid, SupportedTids(), endpoint)]
                 else if tid == TID_DG_SECURITY_EVENT then [EventsReply(endpoint)]
                 else if value != [] then [GetReply(tid, value, endpoint)]
                 else if tid == TID_DG_LEVEL_FOLDBACK then [GetReply(tid, [0x00], endpoint)]
                 else []
  {
    assert SlotOf(actions[k].tid) < SLOTS;
    hide PerformAll, LastWrite, SlotOf;
    assert actions[..k + 1][..k] == actions[..k];
    LastWriteStays(h, y, actions[..k], SlotOf(actions[k].tid));
  }

  /** A reply to a GET always fits in a packet, so an attempt fails only at the socket. */
  lemma GetReplyFits(tuid: Tuid, held: seq<byte>, tid: u16, endpoint: u16, i: nat)
    requires |held| <= BLOB_MAX_BYTES && i < |GetAnswer(held, tid, endpoint)|
    requires GetAnswer(held, tid, endpoint)[i].GetReply?
    ensures var value := GetAnswer(held, tid, endpoint)[i].value;
            value != [] && |value| <= BLOB_MAX_BYTES && ReplyFits(tuid, endpoint, [Tlv(tid, value)])
  {
    hide SupportedTids, U.Path, SG.LongSegments, StreamBytes;
    LocalScope();
    SG.NodeLength(FIXED_SCOPE, tuid, endpoint);
    StreamSingle(Tlv(tid, GetAnswer(held, tid, endpoint)[i].value));
  }

  /** The Lost Mode timer after some actions at one moment: any poll, for this node or not, restarts it. */
  function LifeAfterPolls(s: Life, actions: seq<Action>, now: u32): Life {
    if exists i :: 0 <= i < |actions| && actions[i].Polled? then React(s, PollHeard, now).0 else s
  }

  lemma SingleAction(s: Life, a: Action, now: u32)
    ensures LifeAfterPolls(s, [a], now) == if a.Polled? then React(s, PollHeard, now).0 else s
  {
    assert [a][0] == a;
  }

  /**
   The replies to a poll: the root endpoint's if asked for, then the data
   endpoint's if asked for or nothing else is.
   */
  function PollReplies(request: Request): seq<Reply> {
    (if request.root then [PollReply(request.level, 0)] else [])
    + (if request.data || !request.root then [PollReply(request.level, DATA_ENDPOINT)] else [])
  }

  /** The confirmation of a transaction: each parameter's value, then CHANGE_COUNT. */
  function ReplyBlocks(s: seq<Blob>, tids: seq<u16>, count: u16): seq<Tlv>
    requires |s| == SLOTS && forall i :: 0 <= i < |s| ==> |s[i].value| <= BLOB_MAX_BYTES
  {
    ValueBlocks(s, tids) + [Tlv(TID_SET_REPLY, [0x00] + U16(count))]
  }

  function ValueBlocks(s: seq<Blob>, tids: seq<u16>): seq<Tlv>
    requires |s| == SLOTS && forall i :: 0 <= i < |s| ==> |s[i].value| <= BLOB_MAX_BYTES
  {
    if tids == [] then []
    else
      var tid := tids[|tids| - 1];
      var i := SlotOf(tid);
      ValueBlocks(s, tids[..|tids| - 1]) + if i >= 0 && s[i].value != [] then [Tlv(tid, s[i].value)] else []
  }

  /** A confirmation fits in a packet from the endpoint. */
  ghost predicate ReplyFits(tuid: Tuid, endpoint: u16, blocks: seq<Tlv>) {
    PR.ReplySize(FIXED_SCOPE, PR.Identity(tuid, 0, 0, 0), endpoint, |StreamBytes(blocks)|) <= MAX_UDP_PAYLOAD
  }

  /** The confirmation of some parameters, if the TUID can be read and it fits; else there is none. */
  ghost function SetReplies(shown: Option<Tuid>, s: seq<Blob>, tids: seq<u16>, endpoint: u16, count: u16): seq<Reply>
    requires |s| == SLOTS && forall i :: 0 <= i < |s| ==> |s[i].value| <= BLOB_MAX_BYTES
  {
    if shown.Some? && ReplyFits(shown.value, endpoint, ReplyBlocks(s, tids, count))
    then [SetReply(ReplyBlocks(s, tids, count), endpoint)] else []
  }

  /** The confirmation a packet ends with. */
  ghost function Confirmation(shown: Option<Tuid>, s: seq<Blob>, y: Tally, count: u16): seq<Reply>
    requires |s| == SLOTS && forall i :: 0 <= i < |s| ==> |s[i].value| <= BLOB_MAX_BYTES
  {
    if Commits(y) then SetReplies(shown, s, y.tids, y.replyEndpoint, count) else []
  }

  lemma LocalScope()
    ensures U.ValidScope(FIXED_SCOPE) && !L.Collides(FIXED_SCOPE)
    ensures FIXED_SCOPE != U.NODE && FIXED_SCOPE != U.LEVEL && FIXED_SCOPE != U.MANAGER
  {
    var l := FIXED_SCOPE;
    assert |l| == 5 && |U.MANAGER| == 7 && |U.NODE| == 4 && |U.LEVEL| == 5 && |U.POLL| == 4;
    assert l[0] == 108 && l[1] == 111 && l[2] == 99 && l[3] == 97 && l[4] == 108;
    assert U.LEVEL[1] == 101 && U.POLL[0] == 112;
  }

  /** The state a packet leaves, `flushed` saying whether all poll replies went out. */
  function BlobsAfter(h: Held, flushed: bool): (s: seq<Blob>)
    ensures |s| == |h.blobs|
  {
    if flushed then ClearManagerFlags(h.blobs) else h.blobs
  }

  /** A change made at the node itself: stored and flagged for the manager only if it is one. */
  function Committed(b: Blob, tid: u16, value: seq<byte>, valueType: ValueType): Blob {
    match StoreIfChanged(b, tid, value, valueType)
    case Some((stored, true)) => stored.(managerStale := !IsTidWriteOnly(tid))
    case _ => b
  }

  const LABEL_SLOT: nat := 4
  const UNIVERSE_SLOT: nat := 26
  const LABEL_LIMIT: nat := 64

  /** The store after a (trimmed) device label or a universe is entered at the node. */
  function LabelCommitted(s: seq<Blob>, text: seq<byte>): (r: seq<Blob>)
    requires |s| == SLOTS
    ensures |r| == SLOTS
  {
    if text == [] then s
    else s[LABEL_SLOT := Committed(s[LABEL_SLOT], TID_RT_DEVICE_LABEL, WireText(text, LABEL_LIMIT), Text)]
  }

  function UniverseCommitted(s: seq<Blob>, universe: u16): (r: seq<Blob>)
    requires |s| == SLOTS
    ensures |r| == SLOTS
  {
    s[UNIVERSE_SLOT := Committed(s[UNIVERSE_SLOT], TID_EP_UNIVERSE, U16(universe), U16Value)]
  }

  lemma SettingLabels()
    ensures |SLOT_TIDS| == SLOTS && SLOT_TIDS[LABEL_SLOT] == TID_RT_DEVICE_LABEL
    ensures SLOT_TIDS[UNIVERSE_SLOT] == TID_EP_UNIVERSE
  {
  }

  /** Everything a packet can change: parameters and request, CHANGE_COUNT, the Lost Mode timer, and what was sent. */
  datatype Snapshot = Snapshot(held: Held, count: u16, life: Life, log: seq<Attempt>)

  /**
   The whole effect of an accepted packet. The replies attempted are those to its
   GETs, then `tried` poll replies, then at most one confirmation; `flushed`,
   which clears the manager's flags, says that all poll replies went out.
   */
  ghost predicate PacketDone(
    a: Snapshot, c: Context, payload: seq<byte>, now: u32, flushed: bool, tried: nat, b: Snapshot) {
    && |a.held.blobs| == SLOTS == |b.held.blobs|
    && (forall i :: 0 <= i < |b.held.blobs| ==> |b.held.blobs[i].value| <= BLOB_MAX_BYTES)
    && var actions := Meanings(c, ReadStream(payload, 0).tlvs);
       var (h, y) := PerformAll(a.held, NewTally(c.endpoint), actions);
       && b.held == Held(BlobsAfter(h, flushed), h.request)
       && b.count == CountAfter(a.count, y)
       && b.life == LifeAfterPolls(a.life, actions, now)
       && tried <= |PollReplies(h.request)|
       && var answers := GetReplies(c.tuid, a.held, NewTally(c.endpoint), actions);
       && Grew(a.log, b.log,
               answers
               + (PollReplies(h.request)[..tried] + Confirmation(c.tuid, b.held.blobs, y, b.count)))
       && PollAnswered(y, b.log, |a.log| + |answers|, h.request, flushed, tried)
  }

  /** A packet without a payload changes nothing and sends nothing. */
  lemma NothingToDo(a: Snapshot, c: Context, now: u32)
    requires |a.held.blobs| == SLOTS
    requires forall i :: 0 <= i < |a.held.blobs| ==> |a.held.blobs[i].value| <= BLOB_MAX_BYTES
    ensures PacketDone(a, c, [], now, false, 0, a)
  {
    hide PollReplies;
    assert ReadStream([], 0).tlvs == [];
    NothingDone(c, a.held, NewTally(c.endpoint), a.life, now, a.log);
    assert PollReplies(a.held.request)[..0] == [];
  }

  class Node {
    const blobs: array<Blob>
    const watchdog: Watchdog
    var citizenKey: Key
    const hmac: Hmac
    var request: Request
    var changeCount: u16
    var session: u32
    var seqNum: u32
    var messageId: u16
    ghost var log: seq<Attempt>

    ghost predicate Valid()
      reads this, blobs
    {
      && blobs.Length == SLOTS && InPlace(blobs[..])
      && (forall i :: 0 <= i < SLOTS ==> |blobs[i].value| <= BLOB_MAX_BYTES)
      && Counted()
    }

    ghost predicate Counted()
      reads `session, `seqNum, `messageId, `log
    {
      && Mark(session, seqNum) == Nth(COUNTERS, SentCount(log))
      && messageId == MessageNumber(SentCount(log))
      && Numbered(log)
    }

    ghost function State(): Held
      reads this, blobs
    {
      Held(blobs[..], request)
    }

    ghost function Now(): Snapshot
      reads this, blobs, watchdog
    {
      Snapshot(State(), changeCount, watchdog.State(), log)
    }

    constructor (deviceLabel: seq<byte>, universe: u16, citizenKey: Key, hmac: Hmac)
      ensures Valid() && fresh(blobs) && fresh(watchdog)
      ensures State() == Held(InitialStore(deviceLabel, universe), Request(QUERY_HEARTBEAT, false, true))
      ensures changeCount == 0 && log == [] && watchdog.State() == NewLife()
    {
      hide InitialStore, InPlace, SLOT_TIDS;
      InitialStoreIsValid(deviceLabel, universe);
      var initial := InitialStore(deviceLabel, universe);
      blobs := new Blob[SLOTS](i requires 0 <= i < SLOTS => initial[i]);
      watchdog := new Watchdog();
      this.citizenKey, this.hmac := citizenKey, hmac;
      request := Request(QUERY_HEARTBEAT, false, true);
      changeCount, session, seqNum, messageId, log := 0, 1, 1, 1, [];
      new;
      assert blobs[..] == initial;
      InitialStoreFits(deviceLabel, universe);
    }

    /** Stores a value entered at the node and flags it for the manager. */
    method CommitAt(i: nat, tid: u16, value: seq<byte>, valueType: ValueType)
      requires Valid() && i < SLOTS && blobs[i].tid == tid && |value| <= BLOB_MAX_BYTES
      modifies blobs
      ensures Valid() && blobs[..] == old(blobs[..])[i := Committed(old(blobs[i]), tid, value, valueType)]
    {
      hide SLOT_TIDS, Counted;
      var r := StoreIfChanged(blobs[i], tid, value, valueType);
      if r.Some? && r.value.1 {
        blobs[i] := r.value.0;
        if IsTidWriteOnly(tid) {
          blobs[i] := blobs[i].(managerStale := false);
        } else {
          blobs[i] := blobs[i].(managerStale := true);
        }
      }
    }

    method CommitRootDeviceLabel(text: seq<byte>)
      requires Valid()
      modifies blobs
      ensures Valid() && blobs[..] == LabelCommitted(old(blobs[..]), text)
    {
      hide SLOT_TIDS, Counted, Committed;
      if text == [] {
        return;
      }
      SettingLabels();
      var length := |text| % WRAP16;
      if length > LABEL_LIMIT {
        length := LABEL_LIMIT;
      }
      CommitAt(LABEL_SLOT, TID_RT_DEVICE_LABEL, [ENCODING_UTF8] + text[..length], Text);
    }

    method CommitUniverse(universe: u16)
      requires Valid()
      modifies blobs
      ensures Valid() && blobs[..] == UniverseCommitted(old(blobs[..]), universe)
    {
      hide SLOT_TIDS, Counted, Committed;
      SettingLabels();
      CommitAt(UNIVERSE_SLOT, TID_EP_UNIVERSE, U16(universe), U16Value);
    }

    /** Builds and sends a reply, or fails to; the counters move on only if it went out. */
    method Send(reply: Reply) returns (ok: bool)
      requires Counted()
      modifies this`session, this`seqNum, this`messageId, this`log
      ensures Counted() && Grew(old(log), log, [reply])
      ensures log[|old(log)|] == Attempt(reply, Mark(old(session), old(seqNum)), old(messageId), ok)
    {
      hide Numbered, SentCount, Nth, MessageNumber;
      ok := *;
      var attempt := Attempt(reply, Mark(session, seqNum), messageId, ok);
      ghost var before := log;
      log := log + [attempt];
      if ok {
        seqNum := IncrementSequence(seqNum);
        messageId := (messageId + 1) % WRAP16;
        if ShouldIncrementSession(seqNum) {
          session := (session + 1) % WRAP32;
          seqNum := 1;
        }
      }
      assert log[..|before|] == before;
      LogNext(before, attempt);
      CountersNext(SentCount(before), attempt.mark);
    }

    /**
     Keys are derived from a new root key, or cleared; what the node holds and
     whether it is live stay as they are.
     */
    method SetKeys(citizenKey: Option<Key>)
      requires Valid()
      modifies `citizenKey, watchdog
      ensures Valid()
      ensures watchdog.State() == React(old(watchdog.State()), if citizenKey.Some? then Provision else Deprovision, 0).0
      ensures citizenKey.Some? ==> this.citizenKey == citizenKey.value
    {
      hide SLOT_TIDS, Counted, InPlace;
      watchdog.SetKeys(citizenKey.Some?);
      if citizenKey.Some? {
        this.citizenKey := citizenKey.value;
      }
    }

    /** The Go Live button: announces the node and, if that worked, takes it live. */
    method GoLive(now: u32) returns (ok: bool)
      requires Valid()
      modifies `session, `seqNum, `messageId, `log, watchdog
      ensures Valid() && (ok ==> old(watchdog.keysValid))
      ensures Grew(old(log), log, if old(watchdog.keysValid) then [Announce(false)] else [])
      ensures watchdog.State() == React(old(watchdog.State()), LostMode.GoLive(ok), now).0
    {
      hide SLOT_TIDS, Counted;
      if !watchdog.keysValid {
        return false;
      }
      ok := Send(Announce(false));
      watchdog.ButtonGoLive(ok, now);
    }

    /** The lifecycle part of the receive timer; in Lost Mode it sends a heartbeat. */
    method LifecycleTick(now: u32)
      requires Valid()
      modifies `session, `seqNum, `messageId, `log, watchdog
      ensures Valid()
      ensures var (life, announces) := React(old(watchdog.State()), Tick, now);
              watchdog.State() == life && Grew(old(log), log, if announces then [Announce(true)] else [])
    {
      hide SLOT_TIDS, Counted, OnTick;
      var announce := watchdog.TimerTick(now);
      if announce {
        var sent := Send(Announce(true));
      }
    }

    /** Applies one SET to the store, or refuses it. */
    method HandleSetRequest(tid: u16, value: seq<byte>, fromManager: bool) returns (r: SetResult)
      requires Valid()
      modifies blobs
      ensures Valid() && (blobs[..], r) == ApplySet(old(blobs[..]), tid, value, fromManager)
    {
      hide SLOT_TIDS, SlotFrom, TABLE, Counted;
      ghost var before := blobs[..];
      var i := FindSupportedTidBlob(blobs, tid);
      LookupIsFixed(before, tid, i);
      hide SlotOf;
      if i < 0 {
        return Rejected;
      }
      if IsTextTid(tid) && |value| > MAX_TEXT {
        return Rejected;
      }
      if tid == TID_RT_SCOPE {
        return Rejected;
      }
      if !IsValidSetPayload(tid, value) {
        return Rejected;
      }
      hide IsValidSetPayload;
      var changed := blobs[i].value != value;
      var stored := StoreBlob(blobs[i], tid, value, BlobType(tid));
      if stored.None? {
        return Rejected;
      }
      blobs[i] := stored.value;
      if fromManager {
        blobs[i] := blobs[i].(managerStale := false, uiStale := true);
      } else {
        blobs[i] := blobs[i].(managerStale := !IsTidWriteOnly(tid));
      }
      assert blobs[..] == before[i := SetBlob(before[i], tid, value, fromManager)];
      return if changed then Changed else Unchanged;
    }

    /** Reads a poll and keeps its request if it is for this node. */
    method HandlePollTLV(tuid: Option<Tuid>, v: seq<byte>) returns (matched: bool)
      modifies this`request
      ensures matched == PollTarget(tuid, v).Some?
      ensures request == Otherwise(PollTarget(tuid, v), old(request))
    {
      if |v| != 25 {
        return false;
      }
      if tuid.None? {
        return false;
      }
      var lo, hi, endpoint, level := v[10..16], v[16..22], FromU16(v[22..24]), v[24];
      if level > QUERY_EXTENDED {
        return false;
      }
      if LexLess(tuid.value, lo) || LexLess(hi, tuid.value) {
        return false;
      }
      if endpoint != BROADCAST_ENDPOINT && endpoint != 0 && endpoint != DATA_ENDPOINT {
        return false;
      }
      if endpoint == BROADCAST_ENDPOINT {
        request := request.(root := true, data := true);
      } else if endpoint == 0 {
        request := request.(root := true, data := false);
      } else {
        request := request.(root := false, data := true);
      }
      request := request.(level := level);
      return true;
    }

    /** Stores received levels in the level blob and its foldback copy. */
    method StoreLevels(slots: seq<byte>)
      requires Valid() && |slots| <= MAX_DMX_SLOTS
      modifies blobs
      ensures Valid() && blobs[..] == ApplyLevels(old(blobs[..]), slots)
    {
      hide SLOT_TIDS, Counted;
      LevelLabels();
      ghost var before := blobs[..];
      var level := StoreBlob(blobs[LEVEL_SLOT], TID_LEVEL, slots, Raw);
      blobs[LEVEL_SLOT] := level.value;
      var foldback := StoreBlob(blobs[FOLDBACK_SLOT], TID_DG_LEVEL_FOLDBACK, slots, Raw);
      blobs[FOLDBACK_SLOT] := foldback.value;
      blobs[LEVEL_SLOT] := blobs[LEVEL_SLOT].(uiStale := true);
      assert blobs[..] == ApplyLevels(before, slots);
    }

    /** Answers a GET, if there is something to say and the TUID shown can be read. */
    method SendGetResponse(shown: Option<Tuid>, tid: u16, endpoint: u16)
      requires Valid()
      modifies this`session, this`seqNum, this`messageId, this`log
      ensures Valid() && Grew(old(log), log, AnswerTo(shown, blobs[..], Get(tid, endpoint)))
    {
      hide SLOT_TIDS, SlotFrom, Counted, InPlace, AdvertisedBytes;
      if shown.None? {
        return;
      }
      var value: seq<byte>;
      if tid == TID_RT_SUPPORTED_TIDS {
        var list := new byte[2 * ADVERTISED];
        var length := BuildSupportedTidBytes(list);
        value := list[..length];
      } else if tid == TID_DG_SECURITY_EVENT {
        var sent := Send(EventsReply(endpoint));
        return;
      } else {
        var i := FindSupportedTidBlob(blobs, tid);
        LookupIsFixed(blobs[..], tid, i);
        hide SlotOf;
        if tid == TID_DG_LEVEL_FOLDBACK {
          value := if i >= 0 && |blobs[i].value| > 0 then blobs[i].value else [0x00];
        } else {
          if i < 0 || |blobs[i].value| == 0 {
            return;
          }
          value := blobs[i].value;
        }
      }
      var sent := Send(GetReply(tid, value, endpoint));
    }

    /** One block of an accepted packet. */
    method HandleBlock(c: Context, t: Tlv, y: Tally, now: u32) returns (next: Tally)
      requires Valid() && watchdog.keysValid
      modifies this, blobs, watchdog
      ensures Valid() && watchdog.keysValid
      ensures changeCount == old(changeCount)
      ensures (State(), next) == Perform(old(State()), y, Meaning(c, t))
      ensures Grew(old(log), log, AnswerTo(c.tuid, old(blobs[..]), Meaning(c, t)))
      ensures watchdog.State() == LifeAfterPolls(old(watchdog.State()), [Meaning(c, t)], now)
    {
      hide SLOT_TIDS, Counted, LexLess, IsTidAllowedForEndpoint, IsTidGetSupported, IsTidPersistent;
      hide L.IsTidAllowedForUriLane, L.UniverseOf, SetAllowed, SetBlob, SlotOf, ApplyLevels, InPlace;
      hide GetAnswer, HeldFor;
      ghost var a := Meaning(c, t);
      ghost var s := watchdog.State();
      SingleAction(watchdog.State(), a, now);
      next := y;
      if !L.IsTidAllowedForUriLane(c.uri, t.tid) {
        return;
      }
      if t.tid == TID_LEVEL {
        var ok, universe := L.ParseUniverseFromURI(c.uri);
        if ok && universe == c.universe {
          if 1 <= |t.value| <= MAX_DMX_SLOTS {
            StoreLevels(t.value);
          }
        }
      } else if t.tid == TID_POLL {
        watchdog.HearPoll(now);
        var matched := HandlePollTLV(c.tuid, t.value);
        if matched {
          next := y.(polled := true);
        }
      } else {
        var endpoint := c.endpoint;
        if c.endpoint == BROADCAST_ENDPOINT {
          endpoint := if IsTidAllowedForEndpoint(t.tid, DATA_ENDPOINT) then DATA_ENDPOINT else 0;
        }
        if IsTidAllowedForEndpoint(t.tid, endpoint) {
          if |t.value| == 0 {
            if IsTidGetSupported(t.tid) {
              SendGetResponse(c.tuid, t.tid, endpoint);
            }
          } else {
            var r := HandleSetRequest(t.tid, t.value, true);
            if r == Rejected {
              next := y.(voided := true);
            } else {
              if |y.tids| < MAX_SET_TIDS {
                next := next.(tids := y.tids + [t.tid]);
              }
              next := next.(replyEndpoint := endpoint);
              if r == Changed && IsTidPersistent(t.tid) {
                next := next.(persistent := true);
              }
            }
          }
        }
      }
    }

    /** Answers a poll. The manager's flags are cleared only once every reply has gone out. */
    method SendProactiveResponse() returns (flushed: bool, tried: nat)
      requires Valid()
      modifies this`session, this`seqNum, this`messageId, this`log, blobs
      ensures Valid() && tried <= |PollReplies(request)|
      ensures Grew(old(log), log, PollReplies(request)[..tried]) && tried > 0
      ensures PollTried(log, |old(log)|, request, flushed, tried)
      ensures blobs[..] == BlobsAfter(old(State()), flushed)
    {
      hide SLOT_TIDS, Counted, Searched;
      var root, data := request.root, request.data;
      if !root && !data {
        data := true;
      }
      tried := 0;
      ghost var log0 := log;
      if root {
        var ok := Send(PollReply(request.level, 0));
        tried := 1;
        if !ok {
          return false, tried;
        }
      }
      ghost var log1 := log;
      if data {
        var ok := Send(PollReply(request.level, DATA_ENDPOINT));
        tried := tried + 1;
        if !ok {
          return false, tried;
        }
      }
      ClearAllManagerStaleFlags(blobs);
      return true, tried;
    }

    /**
     Confirms a transaction with the values its parameters now hold and the
     current CHANGE_COUNT; gives up before sending if the TUID shown cannot be
     read or the packet would be too long.
     */
    method SendSetReply(shown: Option<Tuid>, tids: seq<u16>, endpoint: u16)
      requires Valid()
      modifies this`session, this`seqNum, this`messageId, this`log
      ensures Valid()
      ensures Grew(old(log), log, SetReplies(shown, blobs[..], tids, endpoint, changeCount))
    {
      hide SLOT_TIDS, SlotFrom, Counted, StreamBytes, U.Path, L.NodeSegments, SG.LongSegments;
      if shown.None? {
        return;
      }
      var blocks := CollectBlocks(tids);
      var payload := new PacketBuffer();
      var r := BuildPayload(payload, blocks);
      if r != Success {
        return;
      }
      var bytes := payload.GetBytes();
      assert bytes == StreamBytes(blocks);
      BlocksAreSome(blocks);
      LocalScope();
      var n := PR.Identity(shown.value, 0, 0, 0);
      var packet := new PacketBuffer();
      r := PR.BuildReply(packet, FIXED_SCOPE, n, endpoint, bytes, session, seqNum, citizenKey, messageId, hmac);
      PR.BuiltBySize(FIXED_SCOPE, n, endpoint, bytes, SG.SenderOptions(n.tuid, endpoint, 0, session, seqNum),
                     citizenKey, messageId, hmac, r, packet.Contents());
      if r != Success {
        return;
      }
      var sent := Send(SetReply(blocks, endpoint));
    }

    /** The blocks of a confirmation. */
    method CollectBlocks(tids: seq<u16>) returns (blocks: seq<Tlv>)
      requires Valid()
      ensures blocks == ReplyBlocks(blobs[..], tids, changeCount)
    {
      hide SLOT_TIDS, SlotFrom, Counted;
      blocks := [];
      for k := 0 to |tids|
        invariant blocks == ValueBlocks(blobs[..], tids[..k])
      {
        var i := FindSupportedTidBlob(blobs, tids[k]);
        LookupIsFixed(blobs[..], tids[k], i);
        assert tids[..k + 1][..k] == tids[..k];
        if i >= 0 && |blobs[i].value| != 0 {
          blocks := blocks + [Tlv(tids[k], blobs[i].value)];
        }
      }
      assert tids[..|tids|] == tids;
      blocks := blocks + [Tlv(TID_SET_REPLY, [0x00, changeCount / 0x100, changeCount % 0x100])];
      assert [0x00] + U16(changeCount) == [0x00, changeCount / 0x100, changeCount % 0x100];
    }

    /** The blocks of an accepted packet in order, up to the first malformed one. */
    method ProcessBlocks(c: Context, payload: seq<byte>, now: u32) returns (y: Tally)
      requires Valid() && watchdog.keysValid && |payload| < WRAP16
      modifies this, blobs, watchdog
      ensures Valid() && changeCount == old(changeCount)
      ensures var actions := Meanings(c, ReadStream(payload, 0).tlvs);
              && (State(), y) == PerformAll(old(State()), NewTally(c.endpoint), actions)
              && watchdog.State() == LifeAfterPolls(old(watchdog.State()), actions, now)
              && Grew(old(log), log, GetReplies(c.tuid, old(State()), NewTally(c.endpoint), actions))
    {
      hide SLOT_TIDS, Counted, InPlace, Perform, PerformAll, ParseTlv, ReadStream, Meaning, Meanings, React;
      hide LifeAfterPolls, GetReplies, AnswerTo, Grew;
      ghost var h0, log0, life0, count0 := State(), log, watchdog.State(), changeCount;
      ghost var whole := ReadStream(payload, 0).tlvs;
      ghost var done: seq<Tlv> := [];
      var reader := new PacketReader(payload);
      y := NewTally(c.endpoint);
      NothingDone(c, h0, y, life0, now, log);
      assert [] + whole == whole;
      while reader.Remaining() >= 4
        invariant Valid() && watchdog.keysValid && changeCount == count0
        invariant reader.Valid() && reader.data == payload
        invariant whole == done + ReadStream(payload, reader.position).tlvs
        invariant |h0.blobs| == SLOTS && (State(), y) == PerformAll(h0, NewTally(c.endpoint), Meanings(c, done))
        invariant Grew(log0, log, GetReplies(c.tuid, h0, NewTally(c.endpoint), Meanings(c, done)))
        invariant watchdog.State() == LifeAfterPolls(life0, Meanings(c, done), now)
        decreases |payload| - reader.position
      {
        BlocksUnfold(payload, reader.position);
        var r, t := ParseTLVBlock(reader);
        if r != Success {
          break;
        }
        Assoc(done, [t], ReadStream(payload, reader.position).tlvs);
        ghost var before, held := log, State();
        y := HandleBlock(c, t, y, now);
        MeaningsNext(c, done, t);
        PerformNext(h0, NewTally(c.endpoint), Meanings(c, done), Meaning(c, t));
        GetRepliesNext(c.tuid, h0, NewTally(c.endpoint), Meanings(c, done), Meaning(c, t));
        GrewBoth(log0, before, log, GetReplies(c.tuid, h0, NewTally(c.endpoint), Meanings(c, done)),
                 AnswerTo(c.tuid, held.blobs, Meaning(c, t)));
        PollsNext(life0, Meanings(c, done), Meaning(c, t), now);
        done := done + [t];
      }
      BlocksUnfold(payload, reader.position);
      assert done + [] == done;
    }

    /** Closes a packet: the poll reply and, if the transaction commits, CHANGE_COUNT and the confirmation. */
    method ClosePacket(y: Tally, shown: Option<Tuid>) returns (flushed: bool, ghost tried: nat)
      requires Valid()
      modifies `session, `seqNum, `messageId, `log, `changeCount, blobs
      ensures Valid()
      ensures blobs[..] == BlobsAfter(old(State()), flushed)
      ensures changeCount == CountAfter(old(changeCount), y)
      ensures tried <= |PollReplies(request)|
      ensures Grew(old(log), log, PollReplies(request)[..tried] + Confirmation(shown, blobs[..], y, changeCount))
      ensures PollAnswered(y, log, |old(log)|, request, flushed, tried)
    {
      hide SLOT_TIDS, Counted, InPlace, ClearManagerFlags, SetReplies, PollReplies;
      ghost var log0 := log;
      flushed, tried := false, 0;
      if y.polled {
        flushed, tried := SendProactiveResponse();
      }
      ghost var log1 := log;
      if |y.tids| > 0 && !y.voided {
        if y.persistent {
          changeCount := (changeCount + 1) % WRAP16;
        }
        SendSetReply(shown, y.tids, y.replyEndpoint);
      }
      GrewBoth(log0, log1, log, PollReplies(request)[..tried], Confirmation(shown, blobs[..], y, changeCount));
    }

    /** Everything an accepted packet does. */
    method ProcessPayload(c: Context, payload: seq<byte>, now: u32) returns (flushed: bool, ghost tried: nat)
      requires Valid() && watchdog.keysValid && |payload| < WRAP16
      modifies this, blobs, watchdog
      ensures Valid()
      ensures PacketDone(old(Now()), c, payload, now, flushed, tried, Now())
    {
      hide SLOT_TIDS, Counted, InPlace, PerformAll, Meanings, ReadStream, LifeAfterPolls;
      hide GetReplies, PollReplies, Confirmation, PollAnswered;
      ghost var log0, h0 := log, State();
      var y := ProcessBlocks(c, payload, now);
      ghost var log1 := log;
      flushed, tried := ClosePacket(y, c.tuid);
      GrewBoth(log0, log1, log, GetReplies(c.tuid, h0, NewTally(c.endpoint), Meanings(c, ReadStream(payload, 0).tlvs)),
               PollReplies(request)[..tried] + Confirmation(c.tuid, blobs[..], y, changeCount));
    }
  }

  lemma BlocksAreSome(blocks: seq<Tlv>)
    requires blocks != []
    ensures StreamBytes(blocks) != []
  {
    assert |StreamBytes(blocks)| >= |TlvBytes(blocks[0])| > 0;
  }

  lemma {:induction false} ValueBlocksAre(s: seq<Blob>, tids: seq<u16>)
    requires |s| == SLOTS && forall i :: 0 <= i < |s| ==> |s[i].value| <= BLOB_MAX_BYTES
    requires forall k :: 0 <= k < |tids| ==> 0 <= SlotOf(tids[k]) < SLOTS && s[SlotOf(tids[k])].value != []
    ensures |ValueBlocks(s, tids)| == |tids|
    ensures forall k :: 0 <= k < |tids| ==> ValueBlocks(s, tids)[k] == Tlv(tids[k], s[SlotOf(tids[k])].value)
    decreases |tids|
  {
    hide SlotOf;
    if tids != [] {
      var front := tids[..|tids| - 1];
      assert forall k :: 0 <= k < |front| ==> front[k] == tids[k];
      ValueBlocksAre(s, front);
    }
  }

  /**
   A confirmation reports exactly what the packet achieved: for each of the first
   32 accepted SETs in turn, its TID and the value last written to that parameter.
   */
  lemma ConfirmationIsTruthful(h: Held, c: Context, ts: seq<Tlv>, flushed: bool, count: u16)
    requires |h.blobs| == SLOTS
    requires var s := BlobsAfter(PerformAll(h, NewTally(c.endpoint), Meanings(c, ts)).0, flushed);
             forall i :: 0 <= i < |s| ==> |s[i].value| <= BLOB_MAX_BYTES
    ensures var actions := Meanings(c, ts);
            var (h', y) := PerformAll(h, NewTally(c.endpoint), actions);
            var reply := ReplyBlocks(BlobsAfter(h', flushed), y.tids, count);
            && y.tids == FirstOf(AcceptedTids(actions), MAX_SET_TIDS)
            && |reply| == |y.tids| + 1
            && (forall k :: 0 <= k < |y.tids| ==>
                  reply[k].tid == y.tids[k] && LastWrite(actions, SlotOf(y.tids[k])) == Some(reply[k].value))
            && reply[|y.tids|] == Tlv(TID_SET_REPLY, [0x00] + U16(count))
  {
    hide PerformAll, SlotOf, LastWrite, AcceptedTids, Meanings, BlobsAfter, ValueBlocks;
    var actions := Meanings(c, ts);
    TidsMean(h, c.endpoint, actions);
    LevelsAreNotEmpty(c, ts);
    var (h', y) := PerformAll(h, NewTally(c.endpoint), actions);
    var s := BlobsAfter(h', flushed);
    forall k | 0 <= k < |y.tids|
      ensures 0 <= SlotOf(y.tids[k]) < SLOTS
      ensures LastWrite(actions, SlotOf(y.tids[k])) == Some(s[SlotOf(y.tids[k])].value)
      ensures s[SlotOf(y.tids[k])].value != []
    {
      AcceptedIsHeld(h, c.endpoint, actions, k, flushed);
    }
    ValueBlocksAre(s, y.tids);
  }

  lemma AcceptedIsHeld(h: Held, endpoint: u16, actions: seq<Action>, k: nat, flushed: bool)
    requires |h.blobs| == SLOTS && k < |AcceptedTids(actions)|
    requires forall j :: 0 <= j < |actions| && actions[j].Levels? ==> actions[j].slots != []
    ensures var i := SlotOf(AcceptedTids(actions)[k]);
            var s := BlobsAfter(PerformAll(h, NewTally(endpoint), actions).0, flushed);
            0 <= i < SLOTS == |s| && LastWrite(actions, i) == Some(s[i].value) && s[i].value != []
  {
    hide PerformAll, SlotOf, LastWrite, AcceptedTids, Searched;
    AcceptedIsWritten(actions, k);
    LastWriteStays(h, NewTally(endpoint), actions, SlotOf(AcceptedTids(actions)[k]));
  }

  lemma LevelsAreNotEmpty(c: Context, ts: seq<Tlv>)
    ensures forall j :: 0 <= j < |ts| && Meanings(c, ts)[j].Levels? ==> Meanings(c, ts)[j].slots != []
  {
  }

  /**
   The poll replies logged from index `from`: attempts end with the first that
   fails, and `flushed` says that none did.
   */
  ghost predicate PollTried(log: seq<Attempt>, from: nat, request: Request, flushed: bool, tried: nat) {
    && tried <= |PollReplies(request)| && from + tried <= |log|
    && (forall i :: from <= i < from + tried - 1 ==> log[i].sent)
    && (tried > 0 ==> (flushed <==> tried == |PollReplies(request)| && log[from + tried - 1].sent))
    && (0 < tried < |PollReplies(request)| ==> !log[from + tried - 1].sent)
  }

  /** What became of a poll among a packet's blocks; without one nothing is tried and no flag is cleared. */
  ghost predicate PollAnswered(y: Tally, log: seq<Attempt>, from: nat, request: Request, flushed: bool, tried: nat) {
    && PollTried(log, from, request, flushed, tried)
    && (y.polled <==> tried > 0)
    && (flushed ==> y.polled)
  }

  lemma NothingDone(c: Context, h: Held, y: Tally, s: Life, now: u32, log: seq<Attempt>)
    requires |h.blobs| == SLOTS
    ensures Meanings(c, []) == [] && PerformAll(h, y, []) == (h, y)
    ensures LifeAfterPolls(s, [], now) == s && GetReplies(c.tuid, h, y, []) == [] && Grew(log, log, [])
  {
  }

  lemma MeaningsNext(c: Context, done: seq<Tlv>, t: Tlv)
    ensures Meanings(c, done + [t]) == Meanings(c, done) + [Meaning(c, t)]
  {
  }

  lemma GetRepliesNext(shown: Option<Tuid>, h: Held, y: Tally, done: seq<Action>, a: Action)
    requires |h.blobs| == SLOTS
    ensures GetReplies(shown, h, y, done + [a])
         == GetReplies(shown, h, y, done) + AnswerTo(shown, PerformAll(h, y, done).0.blobs, a)
  {
    hide AnswerTo, PerformAll;
    assert (done + [a])[..|done|] == done;
  }

  lemma PollsNext(s: Life, done: seq<Action>, a: Action, now: u32)
    ensures LifeAfterPolls(LifeAfterPolls(s, done, now), [a], now) == LifeAfterPolls(s, done + [a], now)
  {
    var all := done + [a];
    assert all[|done|] == a && [a][0] == a;
    assert forall i :: 0 <= i < |done| ==> all[i] == done[i];
  }

  /** The blocks of a stream from one position on: the first and the rest, or none. */
  lemma BlocksUnfold(data: seq<byte>, pos: nat)
    requires pos <= |data|
    ensures ReadStream(data, pos).tlvs
         == match ParseTlv(data, pos)
            case Block(t, next) => [t] + ReadStream(data, next).tlvs
            case NoBlock(_) => []
    ensures |data| - pos < 4 ==> ReadStream(data, pos).tlvs == []
  {
  }

  lemma InitialStoreFits(deviceLabel: seq<byte>, universe: u16)
    ensures forall i :: 0 <= i < SLOTS ==> |InitialStore(deviceLabel, universe)[i].value| <= BLOB_MAX_BYTES
  {
    hide InitialValue;
    forall i | 0 <= i < SLOTS
      ensures |InitialStore(deviceLabel, universe)[i].value| <= BLOB_MAX_BYTES
    {
      InitialValueFits(SLOT_TIDS[i], deviceLabel, universe);
    }
  }
}
