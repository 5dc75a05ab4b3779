/**
 The node's receive path as a whole: header, extraction, addressing,
 authentication, freshness, and only then the payload. The theorems say that
 what fails on the way changes no parameter, and exactly when a replayed packet is
 applied again.
 */
module NodeReceive {
  import opened Bytes
  import opened Freshness
  import opened FreshnessRuns
  import F = FreshnessIdeal
  import E = FreshnessExact
  import opened TrackTable
  import opened PacketIO
  import opened Text
  import opened UriPath
  import opened Lanes
  import opened SigNetOptions
  import opened TlvStream
  import opened PacketHead
  import opened Receive
  import opened LostMode
  import opened SecurityEvents
  import S = NodeStore
  import B = NodeBlocks
  import T = NodeTransaction
  import R = NodeRuns
  import D = NodeDefaults
  import opened Sender
  import N = Network
  import X = Extraction
  import SG = SignedPacket

  const URI_CAPACITY: nat := 128
  const MAX_TOKEN: nat := 8
  const NOT_REPLACED: nat := 32

  datatype Keys = Keys(managerGlobal: Key, managerLocal: Key, citizen: Key, sender: Key)

  /** The node's identity and keys, and what its interface shows: the universe and, if it can be read, the TUID. */
  datatype Setup = Setup(tuid: Tuid, keys: Keys, keysValid: bool, universe: u16, shown: Option<Tuid>)

  function KeyFor(k: Keys, role: Role): Key {
    match role
    case ManagerGlobalKey => k.managerGlobal
    case ManagerLocalKey => k.managerLocal
    case CitizenKey => k.citizen
    case SenderKey => k.sender
  }

  /** A non-confirmable POST of version 1 with at most 8 token bytes. */
  predicate HeaderOk(packet: seq<byte>) {
    && |packet| >= 4
    && Version(packet[0]) == COAP_VERSION && TokenBits(packet[0]) as nat <= MAX_TOKEN
    && MessageType(packet[0]) == COAP_TYPE_NON && packet[1] == COAP_CODE_POST
  }

  /** The endpoint a URI is for: 1 if it names none, None if it names one this node does not have. */
  function TargetEndpoint(uri: seq<byte>): Option<u16> {
    match EndpointOf(uri)
    case None => Some(B.DATA_ENDPOINT)
    case Some(e) => if e == 0 || e == B.DATA_ENDPOINT as nat || e == B.BROADCAST_ENDPOINT as nat then Some(e) else None
  }

  function ToUpper(c: byte): byte {
    if CHAR_LOWER_A <= c <= 122 then c - NOT_REPLACED else c
  }

  /** A manager URI must name this node's TUID, in either case of letters; other URIs name none. */
  predicate NamesNode(uri: seq<byte>, tuid: Tuid) {
    var i := Search(uri, Enclosed(MANAGER));
    i < 0 ||
      (var rest := uri[i + |Enclosed(MANAGER)|..];
       |rest| >= 12 && forall k :: 0 <= k < 12 ==> rest[k] != SLASH && ToUpper(rest[k]) == ToHex(tuid)[k])
  }

  method CheckManagerTuid(uri: seq<byte>, tuid: Tuid) returns (ok: bool)
    ensures ok == NamesNode(uri, tuid)
  {
    hide Search, ToHex;
    var i := Search(uri, Enclosed(MANAGER));
    if i < 0 {
      return true;
    }
    var rest := uri[i + |Enclosed(MANAGER)|..];
    var named: seq<byte> := [];
    var k := 0;
    while k < 12 && k < |rest| && rest[k] != SLASH
      invariant 0 <= k <= 12 && k <= |rest| && |named| == k
      invariant forall j :: 0 <= j < k ==> rest[j] != SLASH && named[j] == ToUpper(rest[j])
    {
      named := named + [ToUpper(rest[k])];
      k := k + 1;
    }
    if k != 12 {
      return false;
    }
    var local := new byte[12];
    TuidToHexString(tuid, local);
    return named == local[..];
  }

  /** A packet that may be handed to the freshness check, and the endpoint it is for. */
  datatype Screened = Screened(x: Extracted, endpoint: u16)

  /** The outcome of the checks before freshness; a wrong signature is told apart from other faults. */
  datatype Screening = Dropped | Forged | Genuine(p: Screened)

  /** The checks on what was extracted from a packet. */
  function JudgeContent(x: Extracted, s: Setup, hmac: Hmac): Screening {
    if TargetEndpoint(x.uri).None? || !s.keysValid || !NamesNode(x.uri, s.tuid) then Dropped
    else if x.options.mode == MODE_UNPROVISIONED || x.options.mode == MODE_OPEN then Dropped
    else
      match SelectValidationKey(x.uri)
      case None => Dropped
      case Some(role) =>
        if Verify(x.uri, x.options, B.Otherwise(x.payload, []), KeyFor(s.keys, role), hmac) != Success then Forged
        else Genuine(Screened(x, TargetEndpoint(x.uri).value))
  }

  function Judge(packet: seq<byte>, s: Setup, hmac: Hmac): Screening {
    if !HeaderOk(packet) then Dropped
    else
      match Extract(packet, TokenBits(packet[0]), D.FIXED_SCOPE, URI_CAPACITY)
      case None => Dropped
      case Some(x) => JudgeContent(x, s, hmac)
  }

  /** The packet, if it passes all checks before freshness. */
  function Screen(packet: seq<byte>, s: Setup, hmac: Hmac): Option<Screened> {
    var j := Judge(packet, s, hmac);
    if j.Genuine? then Some(j.p) else None
  }

  /** The packet's HMAC is what the node's key for its URI's lane gives for the signed bytes. */
  ghost predicate Signed(x: Extracted, s: Setup, hmac: Hmac) {
    var role := SelectValidationKey(x.uri);
    var input := HmacInput(x.uri, x.options, B.Otherwise(x.payload, []));
    && role.Some? && |input| <= SG.HMAC_BUFFER
    && var key := match role.value
                  case ManagerGlobalKey => s.keys.managerGlobal
                  case ManagerLocalKey => s.keys.managerLocal
                  case CitizenKey => s.keys.citizen
                  case SenderKey => s.keys.sender;
       hmac(key, input) == x.options.hmac
  }

  /**
   What else the node demands of what it extracts: the signed mode; a lane that has
   a key; and an endpoint this node has, in a URI that names this node if it names
   one.
   */
  ghost predicate Addressed(p: Screened, s: Setup) {
    && s.keysValid && p.x.options.mode == 0x00 && SelectValidationKey(p.x.uri).Some? && NamesNode(p.x.uri, s.tuid)
    && (p.endpoint == 0 || p.endpoint == 1 || p.endpoint == 0xFFFF)
    && match EndpointOf(p.x.uri)
       case Some(e) => p.endpoint == e
       case None => p.endpoint == 1
  }

  /**
   A non-confirmable POST of CoAP version 1 with at most 8 token bytes that contains
   a URI, options and payload addressed to this node.
   */
  ghost predicate Admissible(packet: seq<byte>, p: Screened, s: Setup) {
    && |packet| >= 4 && packet[0] / 64 == 1 && packet[0] / 16 % 4 == 1 && packet[0] % 16 <= 8 && packet[1] == 0x02
    && X.Contains(packet, packet[0] % 16, D.FIXED_SCOPE, URI_CAPACITY, p.x) && Addressed(p, s)
  }

  lemma ContentIsExact(x: Extracted, s: Setup, hmac: Hmac, p: Screened)
    requires x.options.mode == 0x00 || x.options.mode == 0x01 || x.options.mode == 0xFF
    ensures JudgeContent(x, s, hmac) == Genuine(p) <==> p.x == x && Addressed(p, s) && Signed(x, s, hmac)
    ensures JudgeContent(x, s, hmac).Forged? <==> !Signed(x, s, hmac) && exists e: u16 :: Addressed(Screened(x, e), s)
  {
    hide SelectValidationKey, EndpointOf, NamesNode, HmacInput;
    var target := TargetEndpoint(x.uri);
    assert Addressed(p, s) && p.x == x ==> target == Some(p.endpoint);
    if target.Some? {
      assert Addressed(Screened(x, target.value), s) <==>
             s.keysValid && x.options.mode == 0x00 && SelectValidationKey(x.uri).Some? && NamesNode(x.uri, s.tuid);
    }
  }

  lemma HeaderMeans(packet: seq<byte>)
    ensures HeaderOk(packet) <==>
            |packet| >= 4 && packet[0] / 64 == 1 && packet[0] / 16 % 4 == 1 && packet[0] % 16 <= 8 && packet[1] == 0x02
    ensures HeaderOk(packet) ==> TokenBits(packet[0]) == packet[0] % 16
  {
  }

  /**
   Screening is exact on every byte string: a packet is genuine if and only if it
   is admissible and signed, and forged if and only if it is admissible and not
   signed; all others are dropped.
   */
  lemma ScreeningIsExact(packet: seq<byte>, s: Setup, hmac: Hmac, p: Screened)
    ensures Screen(packet, s, hmac) == Some(p) <==> Admissible(packet, p, s) && Signed(p.x, s, hmac)
    ensures Judge(packet, s, hmac).Forged? <==>
            exists q: Screened :: Admissible(packet, q, s) && !Signed(q.x, s, hmac)
  {
    T.LocalScope();
    ScopeIsPlain(D.FIXED_SCOPE);
    HeaderMeans(packet);
    hide Extract, X.Contains, Addressed, Signed, JudgeContent, HeaderOk, Plain, ValidScope, Collides;
    hide Version, TokenBits, MessageType;
    if HeaderOk(packet) {
      ForgedIsExact(packet, s, hmac);
      X.ExtractIsExact(packet, packet[0] % 16, D.FIXED_SCOPE, URI_CAPACITY, p.x);
      if Extract(packet, packet[0] % 16, D.FIXED_SCOPE, URI_CAPACITY).Some? {
        ContainedMode(packet, packet[0] % 16, Extract(packet, packet[0] % 16, D.FIXED_SCOPE, URI_CAPACITY).value);
        ContentIsExact(Extract(packet, packet[0] % 16, D.FIXED_SCOPE, URI_CAPACITY).value, s, hmac, p);
      }
    }
  }

  lemma ContainedMode(packet: seq<byte>, token: nat, x: Extracted)
    requires Extract(packet, token, D.FIXED_SCOPE, URI_CAPACITY) == Some(x) && Plain(D.FIXED_SCOPE)
    ensures X.Contains(packet, token, D.FIXED_SCOPE, URI_CAPACITY, x)
    ensures x.options.mode == 0x00 || x.options.mode == 0x01 || x.options.mode == 0xFF
  {
    hide Extract, Plain;
    X.ExtractIsExact(packet, token, D.FIXED_SCOPE, URI_CAPACITY, x);
  }

  lemma ForgedIsExact(packet: seq<byte>, s: Setup, hmac: Hmac)
    requires |packet| >= 4 && HeaderOk(packet) && Plain(D.FIXED_SCOPE)
    ensures Judge(packet, s, hmac).Forged? <==>
            exists q: Screened :: Admissible(packet, q, s) && !Signed(q.x, s, hmac)
  {
    hide Extract, X.Contains, Addressed, Signed, JudgeContent, Plain;
    var token := packet[0] % 16;
    var extracted := Extract(packet, token, D.FIXED_SCOPE, URI_CAPACITY);
    forall q: Screened | Admissible(packet, q, s)
      ensures extracted == Some(q.x)
    {
      X.ExtractIsExact(packet, token, D.FIXED_SCOPE, URI_CAPACITY, q.x);
    }
    if extracted.Some? {
      var x := extracted.value;
      ContainedMode(packet, token, x);
      ContentIsExact(x, s, hmac, Screened(x, 0));
      if Judge(packet, s, hmac).Forged? {
        var e: u16 :| Addressed(Screened(x, e), s);
        assert Admissible(packet, Screened(x, e), s);
      }
    }
  }

  /** The part of an authentic packet that its freshness depends on. */
  function MessageOf(x: Extracted): Message {
    Message(x.options.senderId, Mark(x.options.session, x.options.seqNum))
  }

  /** An applied packet as an event of the node's run. */
  function EventOf(p: Screened, s: Setup, flushed: bool): R.Event {
    R.Packet(B.Context(p.x.uri, p.endpoint, s.universe, s.shown), B.Otherwise(p.x.payload, []), flushed)
  }

  /** The checks before freshness, in the order the node makes them. */
  method ScreenPacket(packet: seq<byte>, s: Setup, hmac: Hmac) returns (r: Screening)
    requires |packet| < WRAP16
    ensures r == Judge(packet, s, hmac)
  {
    hide Extract, Verify, SelectValidationKey, EndpointOf, NamesNode, KeyFor, Version, TokenBits, MessageType;
    if |packet| < 4 {
      return Dropped;
    }
    if Version(packet[0]) != COAP_VERSION {
      return Dropped;
    }
    if TokenBits(packet[0]) as nat > MAX_TOKEN {
      return Dropped;
    }
    if MessageType(packet[0]) != COAP_TYPE_NON {
      return Dropped;
    }
    if packet[1] != COAP_CODE_POST {
      return Dropped;
    }
    var ok, x := ExtractPayload(packet, TokenBits(packet[0]), D.FIXED_SCOPE, URI_CAPACITY);
    if !ok {
      return Dropped;
    }
    var endpoint: nat;
    ok, endpoint := TryParseTargetUriEndpoint(x.uri);
    if ok {
      if endpoint != 0 && endpoint != B.DATA_ENDPOINT as nat && endpoint != B.BROADCAST_ENDPOINT as nat {
        return Dropped;
      }
    } else {
      endpoint := 1;
    }
    if !s.keysValid {
      return Dropped;
    }
    ok := CheckManagerTuid(x.uri, s.tuid);
    if !ok {
      return Dropped;
    }
    if x.options.mode == MODE_UNPROVISIONED || x.options.mode == MODE_OPEN {
      return Dropped;
    }
    var role := SelectValidationKey(x.uri);
    if role.None? {
      return Dropped;
    }
    var verified := VerifyPacketHMAC(x.uri, x.options, B.Otherwise(x.payload, []), KeyFor(s.keys, role.value), hmac);
    return if verified == Success then Genuine(Screened(x, endpoint)) else Forged;
  }

  class Receiver {
    const node: T.Node
    const tracker: FreshnessTracker
    const events: EventLog

    ghost predicate Valid()
      reads this, node, node.blobs
    {
      && node.Valid() && tracker.Valid() && events.Valid()
    }

    constructor (node: T.Node, tracker: FreshnessTracker, events: EventLog)
      requires node.Valid() && tracker.Valid() && events.Valid()
      ensures Valid() && this.node == node && this.tracker == tracker && this.events == events
    {
      this.node, this.tracker, this.events := node, tracker, events;
    }

    ghost function EventsNow(): (seq<u32>, seq<u32>)
      reads events.counts, events.lastSent
    {
      (events.counts[..], events.lastSent[..])
    }

    /** Counts a security event and reports it, if the rate limit and the shown TUID allow. */
    method Report(code: nat, s: Setup, now: u32)
      requires Valid() && IsCode(code)
      modifies node`session, node`seqNum, node`messageId, node`log, events.counts, events.lastSent
      ensures Valid()
      ensures Reported(code, s, now, old(node.Now()), old(EventsNow()), node.Now(), EventsNow())
    {
      hide S.SLOT_TIDS, T.Numbered, Nth, T.SentCount, S.InPlace;
      events.Record(code);
      var allowed := events.MaySend(code, now);
      if !allowed || s.shown.None? {
        return;
      }
      var sent := node.Send(T.SecurityEvent(code, events.counts[code - 1]));
      if sent {
        events.NoteSent(code, now);
      }
    }

    /**
     One datagram from the network. Only an authentic one reaches the tracker and
     only a fresh one the node; a forged or stale one is counted and reported.
     */
    method ProcessIncomingPacket(packet: seq<byte>, s: Setup, hmac: Hmac, now: u32)
      returns (applied: bool, flushed: bool, ghost tried: nat)
      requires Valid() && |packet| < WRAP16 && s.keysValid == node.watchdog.keysValid
      modifies node, node.blobs, node.watchdog, tracker.sessions, tracker.marks, events.counts, events.lastSent
      ensures Valid()
      ensures var p := Screen(packet, s, hmac);
              if p.None? then !applied && tracker.Contents() == old(tracker.Contents())
              else Verdict(tracker.Contents(), applied) == Deliver(old(tracker.Contents()), MessageOf(p.value.x), now)
      ensures var j := Judge(packet, s, hmac);
              && (j.Dropped? ==> node.Now() == old(node.Now()) && EventsNow() == old(EventsNow()))
              && (j.Forged? ==>
                    Reported(HMAC_FAILURE, s, now, old(node.Now()), old(EventsNow()), node.Now(), EventsNow()))
              && (j.Genuine? && !applied ==>
                    Reported(REPLAY_DETECTED, s, now, old(node.Now()), old(EventsNow()), node.Now(), EventsNow()))
      ensures applied ==>
                exists p :: Screen(packet, s, hmac) == Some(p) && Admissible(packet, p, s) && Signed(p.x, s, hmac)
      ensures applied ==>
                var e := EventOf(Screen(packet, s, hmac).value, s, flushed);
                && T.PacketDone(old(node.Now()), e.c, e.payload, now, flushed, tried, node.Now())
                && R.NodeState(node.State(), node.changeCount)
                   == R.Next(R.NodeState(old(node.State()), old(node.changeCount)), e)
                && EventsNow() == old(EventsNow())
    {
      hide Judge, Deliver, S.InPlace, B.PerformAll, ReadStream, B.Meanings, T.PacketDone, R.Next, Reported;
      hide Admissible, Signed;
      applied, flushed, tried := false, false, 0;
      ghost var before := node.Now();
      var r := ScreenPacket(packet, s, hmac);
      if r.Dropped? {
        return;
      }
      if r.Forged? {
        Report(HMAC_FAILURE, s, now);
        return;
      }
      var p := r.p;
      GenuineFacts(packet, s, hmac, p);
      ScreeningIsExact(packet, s, hmac, p);
      applied := tracker.ValidateAndCommit(MessageOf(p.x), now);
      if !applied {
        Report(REPLAY_DETECTED, s, now);
        return;
      }
      var c := B.Context(p.x.uri, p.endpoint, s.universe, s.shown);
      var payload := B.Otherwise(p.x.payload, []);
      if |payload| == 0 {
        T.NothingToDo(before, c, now);
      } else {
        flushed, tried := node.ProcessPayload(c, payload, now);
      }
      DoneIsNext(before, EventOf(p, s, flushed), now, tried, node.Now());
    }
  }

  /** The effect of a packet on the node, seen as an event of its run. */
  lemma DoneIsNext(a: T.Snapshot, e: R.Event, now: u32, tried: nat, b: T.Snapshot)
    requires e.Packet? && T.PacketDone(a, e.c, e.payload, now, e.flushed, tried, b)
    ensures |a.held.blobs| == S.SLOTS && R.NodeState(b.held, b.count) == R.Next(R.NodeState(a.held, a.count), e)
  {
    hide B.PerformAll, ReadStream, B.Meanings, T.Grew, T.PollAnswered, T.Confirmation, T.GetReplies;
  }

  /**
   A security event of a code: it is counted; one packet is attempted if the rate
   limit and the shown TUID allow, and restarts the limit if it goes out. Nothing
   else of the node changes.
   */
  ghost predicate Reported(
    code: nat, s: Setup, now: u32, a: T.Snapshot, before: (seq<u32>, seq<u32>), b: T.Snapshot,
    after: (seq<u32>, seq<u32>))
  {
    && IsCode(code) && |before.0| == |before.1| == EVENT_CODES
    && b == a.(log := b.log)
    && after.0 == CountsAfter(before.0, code)
    && T.Grew(a.log, b.log,
              if Allowed(before.1[code - 1], now) && s.shown.Some?
              then [T.SecurityEvent(code, after.0[code - 1])] else [])
    && after.1 == before.1[code - 1 := LastReport(a.log, b.log, before.1[code - 1], now)]
  }

  /** The counters after one more event of a code. */
  ghost function CountsAfter(counts: seq<u32>, code: nat): (r: seq<u32>)
    requires |counts| == EVENT_CODES && IsCode(code)
    ensures |r| == |counts|
  {
    counts[code - 1 := (counts[code - 1] + 1) % WRAP32]
  }

  /** The limiter's reading after a report: now if a packet went out. */
  ghost function LastReport(before: seq<T.Attempt>, after: seq<T.Attempt>, last: u32, now: u32): u32 {
    if |after| > |before| && after[|after| - 1].sent then now else last
  }

  lemma GenuineFacts(packet: seq<byte>, s: Setup, hmac: Hmac, p: Screened)
    requires Judge(packet, s, hmac) == Genuine(p)
    ensures s.keysValid && |B.Otherwise(p.x.payload, [])| <= |packet|
  {
    hide Extract, Verify, SelectValidationKey, EndpointOf, NamesNode, KeyFor;
    PayloadIsShorter(packet, p.x);
  }

  lemma PayloadIsShorter(packet: seq<byte>, x: Extracted)
    requires |packet| > 0 && Extract(packet, TokenBits(packet[0]), D.FIXED_SCOPE, URI_CAPACITY) == Some(x)
    ensures |B.Otherwise(x.payload, [])| <= |packet|
  {
    hide ValidateSigNetURI, UriOf, OptionsOf;
  }

  // --------------------------------------------------------------------- runs

  /** A datagram received `t` milliseconds of true time after the start, and the node's setup then. */
  datatype Input = Input(t: nat, packet: seq<byte>, setup: Setup)

  ghost predicate InOrder(ins: seq<Input>) {
    forall i, j :: 0 <= i <= j < |ins| ==> ins[i].t <= ins[j].t
  }

  function Authentic(i: Input, hmac: Hmac): Option<Screened> {
    Screen(i.packet, i.setup, hmac)
  }

  /** The authentic packets among the first `n` datagrams, as the freshness check sees them. */
  ghost function Arrivals(ins: seq<Input>, hmac: Hmac, n: nat): seq<Arrival>
    requires n <= |ins|
  {
    if n == 0 then []
    else
      var before := Arrivals(ins, hmac, n - 1);
      match Authentic(ins[n - 1], hmac)
      case None => before
      case Some(p) => before + [Arrival(ins[n - 1].t, MessageOf(p.x))]
  }

  /** Datagram `n` is applied to the node. */
  ghost predicate Applied(ins: seq<Input>, hmac: Hmac, n: nat)
    requires n < |ins|
  {
    && Authentic(ins[n], hmac).Some?
    && var before := Arrivals(ins, hmac, n);
       Deliver(TrackerAfter(before, |before|), MessageOf(Authentic(ins[n], hmac).value.x), ins[n].t % WRAP32).accepted
  }

  /** The node after the first `n` datagrams; `flushed` says for each whether all its poll replies went out. */
  ghost function NodeAt(start: R.NodeState, ins: seq<Input>, hmac: Hmac, flushed: seq<bool>, n: nat): (r: R.NodeState)
    requires |start.held.blobs| == S.SLOTS && n <= |ins| == |flushed|
    ensures |r.held.blobs| == S.SLOTS
  {
    if n == 0 then start
    else
      var before := NodeAt(start, ins, hmac, flushed, n - 1);
      if Applied(ins, hmac, n - 1)
      then R.Next(before, EventOf(Authentic(ins[n - 1], hmac).value, ins[n - 1].setup, flushed[n - 1]))
      else before
  }

  /** An authentic datagram is found among the arrivals, where the freshness check judged it. */
  lemma {:induction false} ArrivalOf(ins: seq<Input>, hmac: Hmac, k: nat, n: nat)
    requires k < n <= |ins| && Authentic(ins[k], hmac).Some?
    ensures var es, i := Arrivals(ins, hmac, n), |Arrivals(ins, hmac, k)|;
            && Arrivals(ins, hmac, k) <= es && i < |es|
            && es[i] == Arrival(ins[k].t, MessageOf(Authentic(ins[k], hmac).value.x))
            && Accepts(es, i) == Applied(ins, hmac, k)
    decreases n
  {
    hide Authentic, Deliver, MessageOf, TrackerAfter;
    var es, before := Arrivals(ins, hmac, n), Arrivals(ins, hmac, k);
    if k < n - 1 {
      ArrivalOf(ins, hmac, k, n - 1);
    }
    assert before <= es;
    N.PrefixTracker(before, es, |before|);
  }

  lemma {:induction false} ArrivalsInOrder(ins: seq<Input>, hmac: Hmac, n: nat, now: nat)
    requires InOrder(ins) && n <= |ins| && (n > 0 ==> ins[n - 1].t <= now)
    ensures Ordered(Arrivals(ins, hmac, n)) && forall e :: e in Arrivals(ins, hmac, n) ==> e.t <= now
  {
    hide Authentic, MessageOf;
    if n > 0 {
      ArrivalsInOrder(ins, hmac, n - 1, ins[n - 1].t);
    }
  }

  /** Successive accepts from a sender are less than an hour apart. */
  ghost predicate KeepsTalking(ins: seq<Input>, hmac: Hmac, id: SenderId) {
    var es := Arrivals(ins, hmac, |ins|);
    NeverSilentForAnHour(es, Verdicts(es), id)
  }

  /** All authentic datagrams come from these Sender-IDs, no more than the tables have slots. */
  ghost predicate OnlyFrom(ins: seq<Input>, hmac: Hmac, ids: set<SenderId>) {
    |ids| <= 32 && forall e :: e in Arrivals(ins, hmac, |ins|) ==> e.msg.sender in ids
  }

  /** What keeps replays of a sender's packets out: it keeps talking, or there are few senders in all. */
  ghost predicate Guarded(ins: seq<Input>, hmac: Hmac, id: SenderId, ids: set<SenderId>) {
    KeepsTalking(ins, hmac, id) || OnlyFrom(ins, hmac, ids)
  }

  /**
   The datagrams of one guarded sender that are applied to the node carry
   strictly increasing (session, sequence) pairs.
   */
  lemma AppliedStrictlyIncrease(ins: seq<Input>, hmac: Hmac, ids: set<SenderId>, i: nat, j: nat)
    requires InOrder(ins) && i < j < |ins| && Applied(ins, hmac, i) && Applied(ins, hmac, j)
    requires var a := MessageOf(Authentic(ins[i], hmac).value.x);
             a.sender == MessageOf(Authentic(ins[j], hmac).value.x).sender && Guarded(ins, hmac, a.sender, ids)
    ensures Before(MessageOf(Authentic(ins[i], hmac).value.x).mark, MessageOf(Authentic(ins[j], hmac).value.x).mark)
  {
    var n := |ins|;
    assert Authentic(ins[i], hmac).Some? && Authentic(ins[j], hmac).Some?;
    hide Authentic, MessageOf, Applied, NeverSilentForAnHour, Accepts, Arrivals, Verdicts;
    ArrivalOf(ins, hmac, i, n);
    ArrivalOf(ins, hmac, j, n);
    ArrivalOf(ins, hmac, i, j);
    ArrivalsInOrder(ins, hmac, n, ins[n - 1].t);
    var es, k, l := Arrivals(ins, hmac, n), |Arrivals(ins, hmac, i)|, |Arrivals(ins, hmac, j)|;
    GuardedArrivals(es, ids, k, l);
  }

  lemma GuardedArrivals(es: seq<Arrival>, ids: set<SenderId>, k: nat, l: nat)
    requires Ordered(es) && k < l < |es| && es[k].msg.sender == es[l].msg.sender && Accepts(es, k) && Accepts(es, l)
    requires NeverSilentForAnHour(es, Verdicts(es), es[k].msg.sender)
             || (|ids| <= 32 && forall e :: e in es ==> e.msg.sender in ids)
    ensures Before(es[k].msg.mark, es[l].msg.mark)
  {
    hide Accepts, Verdicts, NeverSilentForAnHour;
    if NeverSilentForAnHour(es, Verdicts(es), es[k].msg.sender) {
      AcceptsStrictlyIncrease(es, k, l);
    } else {
      F.FewSendersStrictlyIncrease(es, ids, k, l);
    }
  }

  /**
   A replayed datagram, or any authentic one that is not newer than what its
   sender has already had applied, leaves the node's parameters, poll request and
   CHANGE_COUNT exactly as they were, as long as the sender keeps talking or at
   most 32 Sender-IDs are in play.
   */
  lemma GuardedReplayIsHarmless(
    start: R.NodeState, ins: seq<Input>, hmac: Hmac, flushed: seq<bool>, ids: set<SenderId>, i: nat, j: nat)
    requires |start.held.blobs| == S.SLOTS && |ins| == |flushed|
    requires InOrder(ins) && i < j < |ins| && Applied(ins, hmac, i) && Authentic(ins[j], hmac).Some?
    requires var a, b := MessageOf(Authentic(ins[i], hmac).value.x), MessageOf(Authentic(ins[j], hmac).value.x);
             a.sender == b.sender && !Before(a.mark, b.mark) && Guarded(ins, hmac, a.sender, ids)
    ensures NodeAt(start, ins, hmac, flushed, j + 1) == NodeAt(start, ins, hmac, flushed, j)
  {
    hide Authentic, Guarded, R.Next, MessageOf, InOrder;
    if Applied(ins, hmac, j) {
      AppliedStrictlyIncrease(ins, hmac, ids, i, j);
    }
  }

  // ------------------------------------------------------------- exact extent

  /** The tracker before datagram `n`. */
  ghost function TrackerAt(ins: seq<Input>, hmac: Hmac, n: nat): Tracker
    requires n <= |ins|
  {
    var es := Arrivals(ins, hmac, n);
    TrackerAfter(es, |es|)
  }

  /** What datagram `n` says to the freshness check, if it is authentic. */
  ghost function Said(ins: seq<Input>, hmac: Hmac, n: nat): Option<Message>
    requires n < |ins|
  {
    match Authentic(ins[n], hmac)
    case None => None
    case Some(p) => Some(MessageOf(p.x))
  }

  /** Datagram `n` is applied and comes from `id`. */
  ghost predicate AppliedFrom(ins: seq<Input>, hmac: Hmac, n: nat, id: SenderId)
    requires n < |ins|
  {
    Applied(ins, hmac, n) && Said(ins, hmac, n).Some? && Said(ins, hmac, n).value.sender == id
  }

  /** The last of some verdicts that is true; -1 if none is. */
  function LastTrue(v: seq<bool>): (r: int)
    ensures -1 <= r < |v|
    ensures r >= 0 ==> v[r]
    ensures forall k :: r < k < |v| ==> !v[k]
  {
    if v == [] then -1 else if v[|v| - 1] then |v| - 1 else LastTrue(v[..|v| - 1])
  }

  ghost function AppliedList(ins: seq<Input>, hmac: Hmac, n: nat, id: SenderId): (v: seq<bool>)
    requires n <= |ins|
    ensures |v| == n
    ensures forall k :: 0 <= k < n ==> v[k] == AppliedFrom(ins, hmac, k, id)
  {
    seq(n, k requires 0 <= k < n <= |ins| => AppliedFrom(ins, hmac, k, id))
  }

  /** The last datagram of a sender among the first `n` that was applied, or -1. */
  ghost function LastApplied(ins: seq<Input>, hmac: Hmac, n: nat, id: SenderId): (r: int)
    requires n <= |ins|
    ensures -1 <= r < n
  {
    LastTrue(AppliedList(ins, hmac, n, id))
  }

  lemma LastAppliedStep(ins: seq<Input>, hmac: Hmac, n: nat, id: SenderId)
    requires 0 < n <= |ins|
    ensures LastApplied(ins, hmac, n, id)
         == if AppliedFrom(ins, hmac, n - 1, id) then n - 1 else LastApplied(ins, hmac, n - 1, id)
  {
    hide AppliedFrom;
    assert AppliedList(ins, hmac, n, id)[..n - 1] == AppliedList(ins, hmac, n - 1, id);
  }

  lemma LastAppliedIs(ins: seq<Input>, hmac: Hmac, n: nat, id: SenderId)
    requires n <= |ins|
    ensures var r := LastApplied(ins, hmac, n, id);
            && (r >= 0 ==> AppliedFrom(ins, hmac, r, id))
            && forall k :: r < k < n ==> !AppliedFrom(ins, hmac, k, id)
  {
    hide AppliedFrom;
  }

  /** The tracker moves with the authentic datagrams only. */
  lemma TrackerStep(ins: seq<Input>, hmac: Hmac, n: nat)
    requires 0 < n <= |ins|
    ensures TrackerAt(ins, hmac, n)
         == match Said(ins, hmac, n - 1)
            case None => TrackerAt(ins, hmac, n - 1)
            case Some(m) => Deliver(TrackerAt(ins, hmac, n - 1), m, ins[n - 1].t % WRAP32).tracker
  {
    hide Authentic, MessageOf, Deliver, TrackerAfter;
    var es, before := Arrivals(ins, hmac, n), Arrivals(ins, hmac, n - 1);
    if Authentic(ins[n - 1], hmac).Some? {
      N.PrefixTracker(before, es, |before|);
      N.LastDelivery(es);
    }
  }

  /** A datagram is authentic if and only if it is admissible and signed. */
  ghost predicate IsSigned(i: Input, hmac: Hmac) {
    exists p: Screened :: Admissible(i.packet, p, i.setup) && Signed(p.x, i.setup, hmac)
  }

  /**
   Over every run, each datagram that is applied is admissible and carries the HMAC
   that the node's key for its lane gives; and any datagram without it changes
   neither the node nor the tracker.
   */
  lemma OnlySignedIsApplied(start: R.NodeState, ins: seq<Input>, hmac: Hmac, flushed: seq<bool>, j: nat)
    requires |start.held.blobs| == S.SLOTS && j < |ins| == |flushed|
    ensures Authentic(ins[j], hmac).Some? <==> IsSigned(ins[j], hmac)
    ensures Applied(ins, hmac, j) ==> IsSigned(ins[j], hmac)
    ensures !IsSigned(ins[j], hmac) ==>
              && NodeAt(start, ins, hmac, flushed, j + 1) == NodeAt(start, ins, hmac, flushed, j)
              && TrackerAt(ins, hmac, j + 1) == TrackerAt(ins, hmac, j)
  {
    hide R.Next, Deliver, Admissible, Signed, Screen, MessageOf;
    var i := ins[j];
    forall p: Screened
      ensures Screen(i.packet, i.setup, hmac) == Some(p) <==>
              Admissible(i.packet, p, i.setup) && Signed(p.x, i.setup, hmac)
    {
      ScreeningIsExact(i.packet, i.setup, hmac, p);
    }
    TrackerStep(ins, hmac, j + 1);
    hide TrackerAt, Arrivals;
  }

  lemma AppliedIsAccepted(ins: seq<Input>, hmac: Hmac, n: nat)
    requires n < |ins|
    ensures Applied(ins, hmac, n) ==
            match Said(ins, hmac, n)
            case None => false
            case Some(m) => Deliver(TrackerAt(ins, hmac, n), m, ins[n].t % WRAP32).accepted
  {
    hide Authentic, Deliver, TrackerAfter, Arrivals, MessageOf;
  }

  /** The tracker is well formed and, if it has a mark for `id`, it is that of datagram `i`. */
  ghost predicate Holding(ins: seq<Input>, hmac: Hmac, tr: Tracker, id: SenderId, i: int)
    requires i < |ins|
  {
    && WellFormed(tr)
    && (Find(tr.marks, id) >= 0 ==>
          i >= 0 && Said(ins, hmac, i).Some? && tr.marks[Find(tr.marks, id)].value == Said(ins, hmac, i).value.mark)
  }

  lemma HoldingStep(ins: seq<Input>, hmac: Hmac, n: nat, tr: Tracker, id: SenderId, i: int)
    requires i < n < |ins| && Holding(ins, hmac, tr, id, i) && Said(ins, hmac, n).Some?
    ensures var m := Said(ins, hmac, n).value;
            var d := Deliver(tr, m, ins[n].t % WRAP32);
            Holding(ins, hmac, d.tracker, id, if d.accepted && m.sender == id then n else i)
  {
    hide Said, Deliver, WellFormed, Find;
    var m := Said(ins, hmac, n).value;
    DeliverKeepsWellFormed(tr, m, ins[n].t % WRAP32);
    E.MarksAfter(tr, m, ins[n].t % WRAP32, id);
  }

  /** A mark that is found is the mark of its sender's last applied datagram, however old. */
  lemma {:induction false} MarkIsLastApplied(ins: seq<Input>, hmac: Hmac, n: nat, id: SenderId)
    requires n <= |ins|
    ensures Holding(ins, hmac, TrackerAt(ins, hmac, n), id, LastApplied(ins, hmac, n, id))
  {
    if n == 0 {
      E.NothingHeld([], id);
    } else {
      hide Said, Deliver, TrackerAt, Holding, LastApplied, Applied;
      MarkIsLastApplied(ins, hmac, n - 1, id);
      TrackerStep(ins, hmac, n);
      LastAppliedStep(ins, hmac, n, id);
      AppliedIsAccepted(ins, hmac, n - 1);
      if Said(ins, hmac, n - 1).Some? {
        HoldingStep(ins, hmac, n - 1, TrackerAt(ins, hmac, n - 1), id, LastApplied(ins, hmac, n - 1, id));
      }
    }
  }

  /** Datagram `j` is authentic and not newer than the last of its sender's that was applied. */
  ghost predicate IsStale(ins: seq<Input>, hmac: Hmac, j: nat)
    requires j < |ins|
  {
    && Said(ins, hmac, j).Some?
    && var m := Said(ins, hmac, j).value;
       var i := LastApplied(ins, hmac, j, m.sender);
       i >= 0 && Said(ins, hmac, i).Some? && !Before(Said(ins, hmac, i).value.mark, m.mark)
  }

  /** The tracker that datagram `j` meets has lost its sender's mark and has room for it. */
  ghost predicate Readmitted(ins: seq<Input>, hmac: Hmac, j: nat)
    requires j < |ins| && Said(ins, hmac, j).Some?
  {
    E.Readmits(TrackerAt(ins, hmac, j), Said(ins, hmac, j).value, ins[j].t % WRAP32)
  }

  lemma StaleIsAppliedExactly(ins: seq<Input>, hmac: Hmac, j: nat)
    requires j < |ins| && IsStale(ins, hmac, j)
    ensures Applied(ins, hmac, j) <==> Readmitted(ins, hmac, j)
  {
    hide Said, Deliver, TrackerAt, WellFormed, Find, E.FloorAdmits, Acquire, LastApplied, Applied;
    var m := Said(ins, hmac, j).value;
    MarkIsLastApplied(ins, hmac, j, m.sender);
    E.VerdictCases(TrackerAt(ins, hmac, j), m, ins[j].t % WRAP32);
    AppliedIsAccepted(ins, hmac, j);
  }

  /**
   The exact extent of the node's replay protection: a stale datagram, that is
   one not newer than the last applied of its sender's, is applied if and only if the tracker it meets has lost its
   sender's mark and has room for it; otherwise it leaves parameters, poll request
   and CHANGE_COUNT exactly as they were. No sender, clock or population is assumed.
   */
  lemma ReplayIsHarmless(start: R.NodeState, ins: seq<Input>, hmac: Hmac, flushed: seq<bool>, j: nat)
    requires |start.held.blobs| == S.SLOTS && j < |ins| == |flushed| && IsStale(ins, hmac, j)
    ensures Authentic(ins[j], hmac).Some? && (Applied(ins, hmac, j) <==> Readmitted(ins, hmac, j))
    ensures var id := Said(ins, hmac, j).value.sender; var i := LastApplied(ins, hmac, j, id);
            && 0 <= i < j && AppliedFrom(ins, hmac, i, id) && (forall k :: i < k < j ==> !AppliedFrom(ins, hmac, k, id))
            && !Before(Said(ins, hmac, i).value.mark, Said(ins, hmac, j).value.mark)
    ensures var before := NodeAt(start, ins, hmac, flushed, j);
            NodeAt(start, ins, hmac, flushed, j + 1)
            == if Readmitted(ins, hmac, j)
               then R.Next(before, EventOf(Authentic(ins[j], hmac).value, ins[j].setup, flushed[j])) else before
  {
    hide Authentic, R.Next, LastApplied, Applied, Readmitted;
    StaleIsAppliedExactly(ins, hmac, j);
    LastAppliedIs(ins, hmac, j, Said(ins, hmac, j).value.sender);
  }
}
