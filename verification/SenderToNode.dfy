/**
 From sender to node: packets as the builders leave them, or as a manager signs
 a command, are authentic to the node they are for and mean there exactly what
 was put into them.
 */
module SenderToNode {
  import opened Bytes
  import opened Freshness
  import opened Text
  import opened Tids
  import opened UriPath
  import opened Lanes
  import opened SigNetOptions
  import opened TlvStream
  import opened Receive
  import opened NodeReceive
  import S = NodeStore
  import P = NodeProfile
  import B = NodeBlocks
  import T = NodeTransaction
  import R = NodeRuns
  import D = NodeDefaults
  import SG = SignedPacket

  /** A URI of neither the node nor the manager lane is for the data endpoint and names no node. */
  lemma NoTarget(uri: seq<byte>, tuid: Tuid)
    requires !Has(uri, Enclosed(NODE)) && !Has(uri, Enclosed(MANAGER))
    ensures TargetEndpoint(uri) == Some(B.DATA_ENDPOINT) && NamesNode(uri, tuid)
  {
    hide Search;
  }

  /** The identity in a packet's options. */
  function SentBy(o: Options): Message {
    Message(o.senderId, Mark(o.session, o.seqNum))
  }

  /**
   A packet built in the node's scope, for an endpoint it has, naming it if it
   names any node, and signed with its lane's key, passes every check before
   freshness, with its URI, payload and counters intact.
   */
  lemma BuiltIsAuthentic(
    messageId: u16, segs: seq<seq<byte>>, o: Options, payload: seq<byte>, role: Role, s: Setup, hmac: Hmac,
    packet: seq<byte>)
    requires AllPlain(segs) && |segs| >= 4 && segs[..3] == [PREFIX, VERSION, D.FIXED_SCOPE]
    requires |Path(segs)| < URI_CAPACITY && o.mode == MODE_HMAC_SHA256 && s.keysValid
    requires SG.Built(messageId, segs, o, payload, KeyFor(s.keys, role), hmac, Success, packet)
    requires SelectValidationKey(Path(segs)) == Some(role)
    requires TargetEndpoint(Path(segs)).Some? && NamesNode(Path(segs), s.tuid)
    ensures var p := Screen(packet, s, hmac);
            && p.Some? && Some(p.value.endpoint) == TargetEndpoint(Path(segs))
            && p.value.x.uri == Path(segs) && p.value.x.payload == Some(payload)
            && MessageOf(p.value.x) == SentBy(o)
  {
    hide Path, Extract, Verify, SelectValidationKey, SG.PacketBytes, Has, TargetEndpoint, NamesNode, HmacInput;
    EndToEnd(messageId, segs, o, payload, KeyFor(s.keys, role), hmac, D.FIXED_SCOPE, URI_CAPACITY, packet);
    HeadOfPacket(messageId, segs, o, SG.Sign(hmac, KeyFor(s.keys, role), Path(segs), o, payload), payload);
    assert packet[0] == 0x50;
  }

  lemma PollSearches(scope: seq<byte>)
    requires ValidScope(scope) && scope != NODE && scope != MANAGER
    ensures var uri := Path(PollSegments(scope)); !Has(uri, Enclosed(NODE)) && !Has(uri, Enclosed(MANAGER))
  {
    hide Path, Search, FirstSegment;
    var segs := PollSegments(scope);
    SegmentsArePlain(scope, 1, NO_TUID);
    WordsDiffer();
    SearchEnclosed(segs, MANAGER);
    SearchEnclosed(segs, NODE);
  }

  /** A payload of one block asks for that block's action. */
  lemma OneBlockActions(e: R.Event, t: Tlv)
    requires e.Packet? && e.payload == TlvBytes(t)
    ensures R.Actions(e) == [B.Meaning(e.c, t)]
  {
    hide ReadStream, TlvBytes, B.Meaning;
    StreamSingle(t);
    assert TlvBytes(t)[0..] == StreamBytes([t]);
    StreamRoundTrip(TlvBytes(t), 0, [t]);
  }

  /**
   A manager's poll, built with the global manager key, reaches every node that
   holds that key as exactly one poll with the request it encodes.
   */
  lemma PollReachesNode(
    manager: Tuid, mfg: u16, variant: u16, lo: Tuid, hi: Tuid, endpoint: u16, level: byte,
    session: u32, seqNum: u32, messageId: u16, s: Setup, hmac: Hmac, r: Status, packet: seq<byte>)
    requires level <= QUERY_EXTENDED && s.keysValid
    requires SG.Built(messageId, PollSegments(D.FIXED_SCOPE), SG.SenderOptions(manager, 0, 0, session, seqNum),
                      TlvBytes(PollTlv(manager, mfg, variant, lo, hi, endpoint, level)),
                      s.keys.managerGlobal, hmac, r, packet)
    ensures var p := Screen(packet, s, hmac);
            && p.Some? && MessageOf(p.value.x) == Message(SenderIdOf(manager, 0), Mark(session, seqNum))
            && R.Actions(EventOf(p.value, s, false))
               == [B.Polled(B.PollTarget(s.shown, PollTlv(manager, mfg, variant, lo, hi, endpoint, level).value))]
  {
    var segs, t := PollSegments(D.FIXED_SCOPE), PollTlv(manager, mfg, variant, lo, hi, endpoint, level);
    PollEndToEnd(D.FIXED_SCOPE, manager, mfg, variant, lo, hi, endpoint, level, session, seqNum, s.keys.managerGlobal,
                 messageId, hmac, r, packet) by {
      T.LocalScope();
    }
    PollUri(s.tuid);
    hide Path, Extract, Verify, SelectValidationKey, Has, HmacInput, Screen, IsTidAllowedForUriLane;
    hide ReadStream, SG.Built;
    hide SG.PacketBytes, TlvBytes, B.PollTarget, R.Actions, AllPlain, PollSegments, TargetEndpoint, NamesNode;
    var o := SG.SenderOptions(manager, 0, 0, session, seqNum);
    BuiltIsAuthentic(messageId, segs, o, TlvBytes(t), ManagerGlobalKey, s, hmac, packet);
    OneBlockActions(EventOf(Screen(packet, s, hmac).value, s, false), t);
  }

  /** What the poll URI of the node's scope means to it. */
  lemma PollUri(tuid: Tuid)
    ensures var segs := PollSegments(D.FIXED_SCOPE);
            && AllPlain(segs) && |segs| >= 4 && segs[..3] == [PREFIX, VERSION, D.FIXED_SCOPE]
            && |Path(segs)| < URI_CAPACITY
            && SelectValidationKey(Path(segs)) == Some(ManagerGlobalKey) && IsTidAllowedForUriLane(Path(segs), TID_POLL)
            && TargetEndpoint(Path(segs)) == Some(B.DATA_ENDPOINT) && NamesNode(Path(segs), tuid)
  {
    T.LocalScope();
    SegmentsArePlain(D.FIXED_SCOPE, 1, tuid);
    hide Path, Has, SelectValidationKey, IsTidAllowedForUriLane, Plain, TargetEndpoint, NamesNode;
    SG.PollLength(D.FIXED_SCOPE);
    PollSearches(D.FIXED_SCOPE);
    PollLane(D.FIXED_SCOPE);
    NoTarget(Path(PollSegments(D.FIXED_SCOPE)), tuid);
  }

  /**
   A DMX level packet, built with the sender key for the node's universe, ends
   up slot for slot in the node's level blob and its foldback copy.
   */
  lemma LevelsReachNode(
    universe: u16, dmx: seq<byte>, tuid: Tuid, endpoint: u16, mfg: u16, session: u32, seqNum: u32, messageId: u16,
    s: Setup, hmac: Hmac, r: Status, packet: seq<byte>, node: R.NodeState)
    requires MIN_UNIVERSE <= universe <= MAX_UNIVERSE && 1 <= |dmx| <= MAX_DMX_SLOTS && s.keysValid
    requires s.universe == universe
    requires SG.Built(messageId, LevelSegments(D.FIXED_SCOPE, universe),
                      SG.SenderOptions(tuid, endpoint, mfg, session, seqNum),
                      TlvBytes(Tlv(TID_LEVEL, dmx)), s.keys.sender, hmac, r, packet)
    requires |node.held.blobs| == S.SLOTS
    ensures var p := Screen(packet, s, hmac);
            && p.Some? && MessageOf(p.value.x) == Message(SenderIdOf(tuid, endpoint), Mark(session, seqNum))
            && var after := R.Next(node, EventOf(p.value, s, false)).held.blobs;
               after[B.LEVEL_SLOT].value == dmx && after[B.FOLDBACK_SLOT].value == dmx
  {
    LevelsAreAuthentic(universe, dmx, tuid, endpoint, mfg, session, seqNum, messageId, s, hmac, r, packet);
    hide Screen, SG.Built, R.Actions, B.PerformAll, B.LastWrite, LevelSegments;
    LevelsAreStored(node, EventOf(Screen(packet, s, hmac).value, s, false), dmx);
  }

  /** Received levels are stored twice, for the interface to show once; nothing else changes. */
  lemma LevelsAreStored(node: R.NodeState, e: R.Event, dmx: seq<byte>)
    requires |node.held.blobs| == S.SLOTS && e.Packet? && !e.flushed && R.Actions(e) == [B.Levels(dmx)]
    ensures var before, after := node.held.blobs, R.Next(node, e).held.blobs;
            && after[41].value == dmx && after[40].value == dmx && after[41].uiStale
            && after[41].managerStale == before[41].managerStale && after[40].managerStale == before[40].managerStale
            && after[40].uiStale == before[40].uiStale
            && forall i :: 0 <= i < 40 || 42 <= i < S.SLOTS ==> after[i] == before[i]
    ensures R.Next(node, e).count == node.count && R.Next(node, e).held.request == node.held.request
  {
    hide R.Actions;
    var actions, y := R.Actions(e), B.NewTally(e.c.endpoint);
    assert actions[..0] == [];
    assert B.PerformAll(node.held, y, []) == (node.held, y);
    assert B.PerformAll(node.held, y, actions) == B.Perform(node.held, y, actions[0]);
  }

  lemma LevelsAreAuthentic(
    universe: u16, dmx: seq<byte>, tuid: Tuid, endpoint: u16, mfg: u16, session: u32, seqNum: u32, messageId: u16,
    s: Setup, hmac: Hmac, r: Status, packet: seq<byte>)
    requires MIN_UNIVERSE <= universe <= MAX_UNIVERSE && 1 <= |dmx| <= MAX_DMX_SLOTS && s.keysValid
    requires s.universe == universe
    requires SG.Built(messageId, LevelSegments(D.FIXED_SCOPE, universe),
                      SG.SenderOptions(tuid, endpoint, mfg, session, seqNum),
                      TlvBytes(Tlv(TID_LEVEL, dmx)), s.keys.sender, hmac, r, packet)
    ensures var p := Screen(packet, s, hmac);
            && p.Some? && MessageOf(p.value.x) == Message(SenderIdOf(tuid, endpoint), Mark(session, seqNum))
            && R.Actions(EventOf(p.value, s, false)) == [B.Levels(dmx)]
  {
    var segs, t := LevelSegments(D.FIXED_SCOPE, universe), Tlv(TID_LEVEL, dmx);
    var o := SG.SenderOptions(tuid, endpoint, mfg, session, seqNum);
    hide Path, Decimal, ToHex, LevelSegments, TlvBytes, SG.Built, SG.LongSegments;
    SG.DmxPacketFits(D.FIXED_SCOPE, universe, dmx, o, messageId, s.keys.sender, hmac, r, packet) by {
      T.LocalScope();
    }
    LevelUri(universe, s.tuid);
    hide Extract, Verify, SelectValidationKey, Has, HmacInput, Screen, IsTidAllowedForUriLane, ReadStream, SG.Built;
    hide SG.PacketBytes, TlvBytes, UniverseOf, R.Actions, AllPlain, LevelSegments, B.Meaning;
    hide TargetEndpoint, NamesNode;
    BuiltIsAuthentic(messageId, segs, o, TlvBytes(t), SenderKey, s, hmac, packet);
    var e := EventOf(Screen(packet, s, hmac).value, s, false);
    OneBlockActions(e, t);
    LevelMeaning(e.c, dmx);
  }

  lemma LevelMeaning(c: B.Context, dmx: seq<byte>)
    requires 1 <= |dmx| <= MAX_DMX_SLOTS
    requires IsTidAllowedForUriLane(c.uri, TID_LEVEL) && UniverseOf(c.uri) == Some(c.universe as nat)
    ensures B.Meaning(c, Tlv(TID_LEVEL, dmx)) == B.Levels(dmx)
  {
    hide IsTidAllowedForUriLane, UniverseOf;
  }

  /** What a level URI of the node's scope means to it. */
  lemma LevelUri(universe: u16, tuid: Tuid)
    requires MIN_UNIVERSE <= universe <= MAX_UNIVERSE
    ensures var segs := LevelSegments(D.FIXED_SCOPE, universe);
            && AllPlain(segs) && |segs| >= 4 && segs[..3] == [PREFIX, VERSION, D.FIXED_SCOPE]
            && SelectValidationKey(Path(segs)) == Some(SenderKey) && IsTidAllowedForUriLane(Path(segs), TID_LEVEL)
            && UniverseOf(Path(segs)) == Some(universe as nat)
            && TargetEndpoint(Path(segs)) == Some(B.DATA_ENDPOINT) && NamesNode(Path(segs), tuid)
  {
    T.LocalScope();
    SegmentsArePlain(D.FIXED_SCOPE, universe, tuid);
    hide Path, Has, SelectValidationKey, IsTidAllowedForUriLane, UniverseOf, Decimal, Plain, TargetEndpoint, NamesNode;
    LevelSearches(D.FIXED_SCOPE, universe);
    LevelLane(D.FIXED_SCOPE, universe);
    UniverseRoundTrip(D.FIXED_SCOPE, universe);
    NoTarget(Path(LevelSegments(D.FIXED_SCOPE, universe)), tuid);
  }

  // ----------------------------------------------------------------- commands

  /** A printed TUID is upper case, and determines the TUID. */
  lemma HexIsExact(a: Tuid, b: Tuid)
    ensures forall k :: 0 <= k < 12 ==> ToUpper(ToHex(a)[k]) == ToHex(a)[k] && ToHex(a)[k] != SLASH
    ensures ToHex(a) == ToHex(b) <==> a == b
  {
    HexIsInverse(a, ToHex(a));
    HexIsInverse(b, ToHex(b));
    hide ToHex;
  }

  lemma NamesByRest(uri: seq<byte>, node: Tuid, rest: seq<byte>)
    requires var i := Search(uri, Enclosed(MANAGER));
             i >= 0 && i + |Enclosed(MANAGER)| <= |uri| && uri[i + |Enclosed(MANAGER)|..] == rest
    ensures NamesNode(uri, node) <==>
            |rest| >= 12 && forall k :: 0 <= k < 12 ==> rest[k] != SLASH && ToUpper(rest[k]) == ToHex(node)[k]
  {
    hide Search, ToHex;
  }

  /** Text that begins with a printed TUID spells that TUID and no other. */
  lemma SpellsExactly(rest: seq<byte>, tuid: Tuid, node: Tuid)
    requires ToHex(tuid) <= rest
    ensures (forall k :: 0 <= k < 12 ==> rest[k] != SLASH && ToUpper(rest[k]) == ToHex(node)[k]) <==> tuid == node
  {
    HexIsExact(tuid, node);
    hide ToHex;
    assert forall k :: 0 <= k < 12 ==> rest[k] == ToHex(tuid)[k];
    if tuid != node {
      DifferSomewhere(ToHex(tuid), ToHex(node));
    }
  }

  /** Text that begins with "manager/" spells no TUID. */
  lemma ManagerSpellsNothing(rest: seq<byte>, node: Tuid)
    requires MANAGER + [SLASH] <= rest
    ensures !(|rest| >= 12 && forall k :: 0 <= k < 12 ==> rest[k] != SLASH && ToUpper(rest[k]) == ToHex(node)[k])
  {
    assert |MANAGER| == 7;
    hide MANAGER, ToHex, ToUpper;
    assert rest[7] == (MANAGER + [SLASH])[7] == SLASH;
  }

  /** A command names a node exactly when it carries the node's TUID and its scope is not itself "manager". */
  lemma CommandNames(scope: seq<byte>, tuid: Tuid, endpoint: nat, node: Tuid)
    requires ValidScope(scope)
    ensures NamesNode(Path(ManagerSegments(scope, tuid, endpoint)), node) <==> scope != MANAGER && tuid == node
  {
    hide Path, Search, ToHex, Decimal, ManagerSegments, NamesNode, MANAGER, ToUpper, ValidScope, Enclosed;
    AfterManager(scope, tuid, endpoint);
    var uri := Path(ManagerSegments(scope, tuid, endpoint));
    var rest := uri[Search(uri, Enclosed(MANAGER)) + |Enclosed(MANAGER)|..];
    NamesByRest(uri, node, rest);
    if scope == MANAGER {
      ManagerSpellsNothing(rest, node);
    } else {
      SpellsExactly(rest, tuid, node);
    }
  }

  lemma DifferSomewhere(a: seq<byte>, b: seq<byte>)
    requires |a| == |b| && a != b
    ensures exists k :: 0 <= k < |a| && a[k] != b[k]
  {
  }

  /** The endpoints a node answers commands for: root, data and the broadcast address. */
  predicate IsLocal(endpoint: u16) {
    endpoint == 0 || endpoint == B.DATA_ENDPOINT || endpoint == B.BROADCAST_ENDPOINT
  }

  /** What a command's URI means to the node it names. */
  lemma CommandUri(tuid: Tuid, endpoint: u16)
    requires IsLocal(endpoint)
    ensures var segs := ManagerSegments(D.FIXED_SCOPE, tuid, endpoint);
            && AllPlain(segs) && |segs| >= 4 && segs[..3] == [PREFIX, VERSION, D.FIXED_SCOPE]
            && |Path(segs)| < URI_CAPACITY
            && SelectValidationKey(Path(segs)) == Some(ManagerLocalKey)
            && TargetEndpoint(Path(segs)) == Some(endpoint) && NamesNode(Path(segs), tuid)
  {
    T.LocalScope();
    SegmentsArePlain(D.FIXED_SCOPE, endpoint, tuid);
    CommandLength(tuid, endpoint);
    ManagerLane(D.FIXED_SCOPE, tuid, endpoint);
    ManagerEndpointRoundTrip(D.FIXED_SCOPE, tuid, endpoint);
    CommandNames(D.FIXED_SCOPE, tuid, endpoint, tuid);
    hide Path, SelectValidationKey, EndpointOf, NamesNode, Plain, ToHex, Decimal;
  }

  lemma CommandLength(tuid: Tuid, endpoint: u16)
    ensures |Path(ManagerSegments(D.FIXED_SCOPE, tuid, endpoint))| < URI_CAPACITY
  {
    hide Decimal, ToHex;
    DecimalLength(endpoint);
    var segs := ManagerSegments(D.FIXED_SCOPE, tuid, endpoint);
    T.LocalScope();
    SG.PathLengths(segs, 0);
    SG.PathLengths(segs, 1);
    SG.PathLengths(segs, 2);
    SG.PathLengths(segs, 3);
    SG.PathLengths(segs, 4);
    SG.PathLengths(segs, 5);
    assert segs[0..] == segs && segs[6..] == [];
  }

  /** The context of a command to one of the node's endpoints. */
  function CommandContext(s: Setup, endpoint: u16): B.Context {
    B.Context(Path(ManagerSegments(D.FIXED_SCOPE, s.tuid, endpoint)), endpoint, s.universe, s.shown)
  }

  /**
   A command, any list of blocks signed by a manager with the node's local key
   and addressed to one of its endpoints, reaches the node as exactly those
   blocks, and each means there what its lane and endpoint admit.
   */
  lemma CommandReachesNode(
    messageId: u16, o: Options, ts: seq<Tlv>, endpoint: u16, s: Setup, hmac: Hmac, packet: seq<byte>)
    requires s.keysValid && IsLocal(endpoint) && o.mode == MODE_HMAC_SHA256
    requires SG.Built(messageId, ManagerSegments(D.FIXED_SCOPE, s.tuid, endpoint), o, StreamBytes(ts),
                      s.keys.managerLocal,
                      hmac, Success, packet)
    ensures var p := Screen(packet, s, hmac);
            && p.Some? && MessageOf(p.value.x) == SentBy(o) && p.value.endpoint == endpoint
            && R.Actions(EventOf(p.value, s, false)) == B.Meanings(CommandContext(s, endpoint), ts)
  {
    var segs := ManagerSegments(D.FIXED_SCOPE, s.tuid, endpoint);
    CommandUri(s.tuid, endpoint);
    StreamBack(ts);
    hide Path, SelectValidationKey, Screen, ReadStream, SG.Built, StreamBytes, AllPlain, ManagerSegments;
    hide TargetEndpoint, NamesNode, B.Meanings, IsLocal;
    BuiltIsAuthentic(messageId, segs, o, StreamBytes(ts), ManagerLocalKey, s, hmac, packet);
  }

  lemma StreamBack(ts: seq<Tlv>)
    ensures ReadStream(StreamBytes(ts), 0).tlvs == ts
  {
    hide ReadStream, StreamBytes;
    assert StreamBytes(ts)[0..] == StreamBytes(ts);
    StreamRoundTrip(StreamBytes(ts), 0, ts);
  }

  /** A TID that a command may SET at an endpoint. */
  predicate MaySet(tid: u16, c: B.Context) {
    && tid !in {TID_POLL, TID_LEVEL, TID_PRIORITY, TID_SYNC, TID_TIMECODE, TID_OSC}
    && P.IsTidAllowedForEndpoint(tid, B.EffectiveEndpoint(c, tid))
  }

  /** A SET in a command is a SET. */
  lemma CommandSets(c: B.Context, tuid: Tuid, tid: u16, value: TlvValue)
    requires c.uri == Path(ManagerSegments(D.FIXED_SCOPE, tuid, c.endpoint)) && MaySet(tid, c) && value != []
    ensures B.Meaning(c, Tlv(tid, value)) == B.Set(tid, value, B.EffectiveEndpoint(c, tid))
  {
    T.LocalScope();
    ManagerLaneTids(D.FIXED_SCOPE, tuid, c.endpoint, tid);
    hide Path, IsTidAllowedForUriLane, UniverseOf, P.IsTidAllowedForEndpoint;
  }

  /** A built SET is screened, and means there that SET and nothing else. */
  lemma SetIsScreened(
    messageId: u16, o: Options, tid: u16, value: TlvValue, endpoint: u16, s: Setup, hmac: Hmac, packet: seq<byte>)
    requires s.keysValid && IsLocal(endpoint) && o.mode == MODE_HMAC_SHA256 && value != []
    requires SG.Built(messageId, ManagerSegments(D.FIXED_SCOPE, s.tuid, endpoint), o, StreamBytes([Tlv(tid, value)]),
                      s.keys.managerLocal, hmac, Success, packet)
    requires MaySet(tid, CommandContext(s, endpoint))
    ensures var p := Screen(packet, s, hmac);
            && p.Some? && MessageOf(p.value.x) == SentBy(o)
            && R.Actions(EventOf(p.value, s, false))
               == [B.Set(tid, value, B.EffectiveEndpoint(CommandContext(s, endpoint), tid))]
  {
    hide Path, Screen, SG.Built, StreamBytes, ManagerSegments, R.Actions, B.EffectiveEndpoint, MaySet;
    hide B.Meaning, IsLocal, ReadStream;
    CommandSets(CommandContext(s, endpoint), s.tuid, tid, value);
    CommandReachesNode(messageId, o, [Tlv(tid, value)], endpoint, s, hmac, packet);
  }

  /**
   From manager to store: a built SET of an allowed value reaches the node's slot
   for its TID, and advances CHANGE_COUNT exactly if it changes a persistent one.
   */
  lemma SetReachesNode(
    messageId: u16, o: Options, tid: u16, value: TlvValue, endpoint: u16, s: Setup, hmac: Hmac, packet: seq<byte>,
    node: R.NodeState)
    requires s.keysValid && IsLocal(endpoint) && o.mode == MODE_HMAC_SHA256 && |node.held.blobs| == S.SLOTS
    requires SG.Built(messageId, ManagerSegments(D.FIXED_SCOPE, s.tuid, endpoint), o, StreamBytes([Tlv(tid, value)]),
                      s.keys.managerLocal, hmac, Success, packet)
    requires B.SetAllowed(tid, value) && MaySet(tid, CommandContext(s, endpoint))
    ensures var p := Screen(packet, s, hmac);
            && p.Some? && MessageOf(p.value.x) == SentBy(o)
            && var after := R.Next(node, EventOf(p.value, s, false));
               && 0 <= S.SlotOf(tid) < S.SLOTS
               && after.held.blobs[S.SlotOf(tid)].value == value
               && after.count == if P.IsTidPersistent(tid) && node.held.blobs[S.SlotOf(tid)].value != value
                                 then (node.count + 1) % WRAP16 else node.count
  {
    SetIsNotEmpty(tid, value);
    hide Path, Screen, SG.Built, StreamBytes, ManagerSegments, B.SetAllowed, R.Actions, B.EffectiveEndpoint;
    hide MaySet, R.Next, S.SlotOf, B.Meaning, P.IsTidPersistent, IsLocal, CommandContext;
    SetIsScreened(messageId, o, tid, value, endpoint, s, hmac, packet);
    OneSet(node, EventOf(Screen(packet, s, hmac).value, s, false), tid, value,
           B.EffectiveEndpoint(CommandContext(s, endpoint), tid));
  }

  lemma SetIsNotEmpty(tid: u16, value: TlvValue)
    requires B.SetAllowed(tid, value)
    ensures value != []
  {
    hide S.SlotOf;
  }

  /** The effect of a packet with one accepted SET. */
  lemma OneSet(node: R.NodeState, e: R.Event, tid: u16, value: seq<byte>, endpoint: u16)
    requires |node.held.blobs| == S.SLOTS && e.Packet? && !e.flushed && R.Actions(e) == [B.Set(tid, value, endpoint)]
    requires B.SetAllowed(tid, value)
    ensures var after := R.Next(node, e);
            && 0 <= S.SlotOf(tid) < S.SLOTS
            && after.held.blobs[S.SlotOf(tid)].value == value
            && after.count == if P.IsTidPersistent(tid) && node.held.blobs[S.SlotOf(tid)].value != value
                              then (node.count + 1) % WRAP16 else node.count
  {
    hide S.SlotFrom, P.IsTidPersistent, P.IsValidSetPayload, R.Actions, P.IsTextTid, S.SLOT_TIDS;
    var actions := R.Actions(e);
    assert actions[..0] == [];
    assert B.PerformAll(node.held, B.NewTally(e.c.endpoint), []) == (node.held, B.NewTally(e.c.endpoint));
    assert B.PerformAll(node.held, B.NewTally(e.c.endpoint), actions)
        == B.Perform(node.held, B.NewTally(e.c.endpoint), actions[0]);
  }

  /**
   A voided command that a node accepts: its first SET takes effect and stays,
   its second is refused, and CHANGE_COUNT does not move.
   */
  lemma VoidedCommandLeavesItsMark(
    messageId: u16, o: Options, s: Setup, hmac: Hmac, packet: seq<byte>, node: R.NodeState)
    requires s.keysValid && o.mode == MODE_HMAC_SHA256 && S.InPlace(node.held.blobs) && node.held.blobs[5].value == [0]
    requires SG.Built(messageId, ManagerSegments(D.FIXED_SCOPE, s.tuid, 0), o, B.MULT_TWICE, s.keys.managerLocal,
                      hmac, Success, packet)
    ensures var p := Screen(packet, s, hmac);
            && p.Some?
            && var after := R.Next(node, EventOf(p.value, s, false));
               after.held.blobs[5].value == [1] && after.count == node.count
  {
    B.MultTwiceBlocks();
    var ts := [Tlv(TID_RT_MULT, [1]), Tlv(TID_RT_MULT, [9])];
    T.LocalScope();
    hide Path, Screen, SG.Built, StreamBytes, ManagerSegments, B.MULT_TWICE, ReadStream, B.PerformAll;
    hide S.SLOT_TIDS, B.Meanings;
    CommandReachesNode(messageId, o, ts, 0, s, hmac, packet);
    B.VoidedPacketLeavesItsMark(node.held, node.count, CommandContext(s, 0), D.FIXED_SCOPE, s.tuid);
  }
}
