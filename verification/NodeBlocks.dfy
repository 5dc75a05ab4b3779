/**
 What one packet means to a node: the action of each of its TLV blocks, and the
 effect of a list of actions on the node's parameters and on the SET
 transaction the packet opens.
 */
module NodeBlocks {
  import opened Bytes
  import opened Freshness
  import opened Tids
  import opened TlvStream
  import opened NodeProfile
  import opened NodeStore
  import L = Lanes
  import U = UriPath

  const BROADCAST_ENDPOINT: u16 := 0xFFFF
  const DATA_ENDPOINT: u16 := 1
  const MAX_SET_TIDS: nat := 32
  const FOLDBACK_SLOT: nat := 40
  const LEVEL_SLOT: nat := 41

  /** What a poll asks for: how much, and about which endpoints. */
  datatype Request = Request(level: byte, root: bool, data: bool)

  /** A packet's URI and target endpoint, and the node's universe and TUID, if that can be read. */
  datatype Context = Context(uri: seq<byte>, endpoint: u16, universe: u16, tuid: Option<Tuid>)

  datatype Action =
    | Ignored
    | Levels(slots: seq<byte>)
    | Polled(request: Option<Request>)
    | Get(tid: u16, endpoint: u16)
    | Set(tid: u16, value: seq<byte>, endpoint: u16)

  // -------------------------------------------------------------------- polls

  /** memcmp(a, b, n) < 0 */
  predicate LexLess(a: seq<byte>, b: seq<byte>)
    requires |a| == |b|
  {
    a != [] && (a[0] < b[0] || (a[0] == b[0] && LexLess(a[1..], b[1..])))
  }

  /** What a poll asks of this node; None if it is malformed or not for it. */
  function PollTarget(tuid: Option<Tuid>, v: seq<byte>): Option<Request> {
    if |v| != 25 || tuid.None? || v[24] > QUERY_EXTENDED then None
    else if LexLess(tuid.value, v[10..16]) || LexLess(v[16..22], tuid.value) then None
    else
      var endpoint := FromU16(v[22..24]);
      if endpoint == BROADCAST_ENDPOINT then Some(Request(v[24], true, true))
      else if endpoint == 0 then Some(Request(v[24], true, false))
      else if endpoint == DATA_ENDPOINT then Some(Request(v[24], false, true))
      else None
  }

  function Number(b: seq<byte>): nat {
    if b == [] then 0 else 0x100 * Number(b[..|b| - 1]) + b[|b| - 1]
  }

  /** Comparing byte strings of one length compares the big-endian numbers they stand for. */
  lemma {:induction false} LexIsNumeric(a: seq<byte>, b: seq<byte>)
    requires |a| == |b|
    ensures LexLess(a, b) <==> Number(a) < Number(b)
    ensures a == b <==> Number(a) == Number(b)
    decreases |a|
  {
    if a != [] {
      var n := |a| - 1;
      LexIsNumeric(a[..n], b[..n]);
      LexBySnoc(a, b);
      assert a == a[..n] + [a[n]] && b == b[..n] + [b[n]];
    }
  }

  lemma {:induction false} LexBySnoc(a: seq<byte>, b: seq<byte>)
    requires |a| == |b| > 0
    ensures var n := |a| - 1; LexLess(a, b) <==> LexLess(a[..n], b[..n]) || (a[..n] == b[..n] && a[n] < b[n])
    decreases |a|
  {
    var n := |a| - 1;
    if n > 0 {
      LexBySnoc(a[1..], b[1..]);
      assert a[1..][..n - 1] == a[..n][1..] && b[1..][..n - 1] == b[..n][1..];
      assert a[..n] == b[..n] <==> a[0] == b[0] && a[..n][1..] == b[..n][1..] by {
        assert a[..n] == [a[0]] + a[..n][1..] && b[..n] == [b[0]] + b[..n][1..];
      }
    }
  }

  /**
   A poll as a manager encodes it is answered exactly by the nodes whose TUID
   lies between its bounds as a 48-bit number and whose endpoint it names.
   */
  lemma PollIsAnswered(
    manager: Tuid, mfg: u16, variant: u16, lo: Tuid, hi: Tuid, endpoint: u16, level: byte, tuid: Tuid)
    ensures PollTarget(Some(tuid), PollTlv(manager, mfg, variant, lo, hi, endpoint, level).value)
         == if level <= QUERY_EXTENDED && Number(lo) <= Number(tuid) <= Number(hi)
               && (endpoint == BROADCAST_ENDPOINT || endpoint == 0 || endpoint == DATA_ENDPOINT)
            then Some(Request(level, endpoint != DATA_ENDPOINT, endpoint != 0))
            else None
  {
    hide LexLess, Number;
    var v := PollTlv(manager, mfg, variant, lo, hi, endpoint, level).value;
    assert v[10..16] == lo && v[16..22] == hi && v[22..24] == U16(endpoint) && v[24] == level;
    U16RoundTrip(endpoint, [0, 0]);
    LexIsNumeric(tuid, lo);
    LexIsNumeric(hi, tuid);
  }

  // ------------------------------------------------------------------ meaning

  /** The endpoint a block is for: a broadcast one goes to the data endpoint if it belongs there. */
  function EffectiveEndpoint(c: Context, tid: u16): u16 {
    if c.endpoint != BROADCAST_ENDPOINT then c.endpoint
    else if IsTidAllowedForEndpoint(tid, DATA_ENDPOINT) then DATA_ENDPOINT else 0
  }

  function Meaning(c: Context, t: Tlv): Action {
    if !L.IsTidAllowedForUriLane(c.uri, t.tid) then Ignored
    else if t.tid == TID_LEVEL then
      if L.UniverseOf(c.uri) == Some(c.universe as nat) && 1 <= |t.value| <= MAX_DMX_SLOTS
      then Levels(t.value) else Ignored
    else if t.tid == TID_POLL then Polled(PollTarget(c.tuid, t.value))
    else
      var endpoint := EffectiveEndpoint(c, t.tid);
      if !IsTidAllowedForEndpoint(t.tid, endpoint) then Ignored
      else if t.value != [] then Set(t.tid, t.value, endpoint)
      else if IsTidGetSupported(t.tid) then Get(t.tid, endpoint)
      else Ignored
  }

  function Meanings(c: Context, ts: seq<Tlv>): (as': seq<Action>)
    ensures |as'| == |ts|
  {
    seq(|ts|, i requires 0 <= i < |ts| => Meaning(c, ts[i]))
  }

  // --------------------------------------------------------------------- SETs

  datatype SetResult = Rejected | Unchanged | Changed

  /** A SET is refused for its TID or its value, never for what the node holds. */
  predicate SetAllowed(tid: u16, value: seq<byte>) {
    && SlotOf(tid) >= 0
    && !(IsTextTid(tid) && |value| > MAX_TEXT)
    && tid != TID_RT_SCOPE
    && IsValidSetPayload(tid, value)
    && |value| <= BLOB_MAX_BYTES
  }

  /**
   Exactly which SETs are accepted: of a TID the node stores, other than the scope,
   with 1 to 512 bytes, or for these TIDs only with bytes in these ranges.
   */
  lemma AcceptedValues(tid: u16, value: seq<byte>)
    ensures SetAllowed(tid, value) <==>
            && SlotOf(tid) >= 0 && tid != TID_RT_SCOPE && 1 <= |value| <= 512
            && (tid in {TID_RT_DEVICE_LABEL, TID_RT_MODEL_NAME, TID_EP_LABEL} ==> |value| <= 65)
            && (tid in {TID_EP_INPUT_PRIORITY, TID_EP_PROTOCOL, TID_RDM_PORT_CONFIG} ==> |value| == 1)
            && (tid == TID_RT_MULT ==> value == [0] || value == [1])
            && (tid == TID_RT_IDENTIFY ==> |value| == 1 && value[0] <= 4)
            && (tid == TID_EP_DIRECTION ==> |value| == 1 && value[0] <= 7)
            && (tid == TID_EP_FAILOVER ==> |value| == 3 && value[0] <= 4)
            && (tid == TID_EP_DMX_TIMING ==> |value| == 2 && value[0] <= 1 && value[1] <= 2)
            && (tid == TID_EP_UNIVERSE ==> |value| == 2 && 1 <= 256 * (value[0] as int) + value[1] <= 63999)
            && (tid == TID_EP_MULT_OVERRIDE ==> |value| == 4)
  {
    hide SlotOf;
    if |value| == 1 {
      assert value == [value[0]];
    }
  }

  function BlobType(tid: u16): ValueType {
    if IsTextTid(tid) || tid == TID_RT_SCOPE || tid == TID_DG_MESSAGE then Text else Raw
  }

  /** The blob after an accepted SET from a manager, or from the node's own interface. */
  function SetBlob(b: Blob, tid: u16, value: seq<byte>, fromManager: bool): Blob {
    Blob(tid, value, BlobType(tid),
         if fromManager then false else !IsTidWriteOnly(tid),
         if fromManager then true else b.uiStale)
  }

  function ApplySet(s: seq<Blob>, tid: u16, value: seq<byte>, fromManager: bool): (r: (seq<Blob>, SetResult))
    requires |s| == SLOTS
    ensures |r.0| == SLOTS
  {
    if !SetAllowed(tid, value) then (s, Rejected)
    else
      var i := SlotOf(tid);
      (s[i := SetBlob(s[i], tid, value, fromManager)], if s[i].value == value then Unchanged else Changed)
  }

  /** Received levels go to the level blob and to its foldback copy. */
  function ApplyLevels(s: seq<Blob>, slots: seq<byte>): (r: seq<Blob>)
    requires |s| == SLOTS
    ensures |r| == SLOTS
  {
    s[LEVEL_SLOT := s[LEVEL_SLOT].(tid := TID_LEVEL, value := slots, valueType := Raw, uiStale := true)]
     [FOLDBACK_SLOT := s[FOLDBACK_SLOT].(tid := TID_DG_LEVEL_FOLDBACK, value := slots, valueType := Raw)]
  }

  // ------------------------------------------------------------- transactions

  /** What a packet can change before it is complete: the parameters and the last poll's request. */
  datatype Held = Held(blobs: seq<Blob>, request: Request)

  /** A packet's running account: was it a poll for us, which SETs were accepted, was any refused. */
  datatype Tally = Tally(polled: bool, tids: seq<u16>, persistent: bool, voided: bool, replyEndpoint: u16)

  function NewTally(endpoint: u16): Tally {
    Tally(false, [], false, false, endpoint)
  }

  function Perform(h: Held, y: Tally, a: Action): (r: (Held, Tally))
    requires |h.blobs| == SLOTS
    ensures |r.0.blobs| == SLOTS
  {
    match a
    case Ignored => (h, y)
    case Get(_, _) => (h, y)
    case Levels(slots) => (h.(blobs := ApplyLevels(h.blobs, slots)), y)
    case Polled(None) => (h, y)
    case Polled(Some(request)) => (h.(request := request), y.(polled := true))
    case Set(tid, value, endpoint) =>
      var (blobs, result) := ApplySet(h.blobs, tid, value, true);
      if result == Rejected then (h, y.(voided := true))
      else
        (h.(blobs := blobs),
         y.(tids := if |y.tids| < MAX_SET_TIDS then y.tids + [tid] else y.tids,
            replyEndpoint := endpoint,
            persistent := y.persistent || (result == Changed && IsTidPersistent(tid))))
  }

  function PerformAll(h: Held, y: Tally, actions: seq<Action>): (r: (Held, Tally))
    requires |h.blobs| == SLOTS
    ensures |r.0.blobs| == SLOTS
  {
    if actions == [] then (h, y)
    else
      var (h', y') := PerformAll(h, y, actions[..|actions| - 1]);
      Perform(h', y', actions[|actions| - 1])
  }

  /** The packet's SETs are confirmed: some were accepted and none refused. */
  predicate Commits(y: Tally) {
    y.tids != [] && !y.voided
  }

  /** CHANGE_COUNT after the packet. */
  function CountAfter(count: u16, y: Tally): u16 {
    if Commits(y) && y.persistent then (count + 1) % WRAP16 else count
  }

  lemma PerformNext(h: Held, y: Tally, done: seq<Action>, a: Action)
    requires |h.blobs| == SLOTS
    ensures var (h', y') := PerformAll(h, y, done); PerformAll(h, y, done + [a]) == Perform(h', y', a)
  {
    assert (done + [a])[..|done|] == done;
  }

  // ------------------------------------------------------- effect on one slot

  /** The value an action writes to slot `i`, if it does. */
  function Writes(a: Action, i: int): Option<seq<byte>> {
    match a
    case Levels(slots) => if i == LEVEL_SLOT || i == FOLDBACK_SLOT then Some(slots) else None
    case Set(tid, value, _) => if SetAllowed(tid, value) && SlotOf(tid) == i then Some(value) else None
    case _ => None
  }

  /** The last value a list of actions writes to slot `i`, if any does. */
  function LastWrite(actions: seq<Action>, i: int): Option<seq<byte>> {
    if actions == [] then None
    else
      var w := Writes(actions[|actions| - 1], i);
      if w.Some? then w else LastWrite(actions[..|actions| - 1], i)
  }

  function Otherwise<T>(o: Option<T>, d: T): T {
    if o.Some? then o.value else d
  }

  /**
   After a packet every parameter holds the last value an accepted SET or a
   level block wrote to it, or what it held before; refused SETs and the fate of
   the transaction make no difference.
   */
  lemma {:induction false} LastWriteStays(h: Held, y: Tally, actions: seq<Action>, i: nat)
    requires |h.blobs| == SLOTS && i < SLOTS
    ensures PerformAll(h, y, actions).0.blobs[i].value == Otherwise(LastWrite(actions, i), h.blobs[i].value)
    decreases |actions|
  {
    hide SlotFrom, SLOT_TIDS, IsTextTid, IsValidSetPayload, IsTidPersistent;
    if actions != [] {
      LastWriteStays(h, y, actions[..|actions| - 1], i);
    }
  }

  /** Slots keep their labels, so every TID keeps its slot. */
  lemma {:induction false} LabelsStay(h: Held, y: Tally, actions: seq<Action>)
    requires InPlace(h.blobs)
    ensures InPlace(PerformAll(h, y, actions).0.blobs)
    decreases |actions|
  {
    if actions != [] {
      LabelsStay(h, y, actions[..|actions| - 1]);
      var (h', y') := PerformAll(h, y, actions[..|actions| - 1]);
      PerformKeepsLabels(h', y', actions[|actions| - 1]);
    }
  }

  lemma LevelLabels()
    ensures |SLOT_TIDS| == SLOTS && SLOT_TIDS[LEVEL_SLOT] == TID_LEVEL
    ensures SLOT_TIDS[FOLDBACK_SLOT] == TID_DG_LEVEL_FOLDBACK
  {
  }

  lemma PerformKeepsLabels(h: Held, y: Tally, a: Action)
    requires InPlace(h.blobs)
    ensures InPlace(Perform(h, y, a).0.blobs)
  {
    hide SLOT_TIDS, SlotFrom, IsTextTid, IsValidSetPayload, IsTidPersistent;
    LevelLabels();
  }

  // ------------------------------------------------------ meaning of the tally

  predicate Accepted(a: Action) {
    a.Set? && SetAllowed(a.tid, a.value)
  }

  predicate Refused(a: Action) {
    a.Set? && !SetAllowed(a.tid, a.value)
  }

  /** Block `k` is an accepted SET of a persistent TID to a value it does not hold when the block is reached. */
  predicate ChangesPersistent(h: Held, y: Tally, actions: seq<Action>, k: nat)
    requires |h.blobs| == SLOTS && k < |actions|
  {
    && Accepted(actions[k])
    && IsTidPersistent(actions[k].tid)
    && PerformAll(h, y, actions[..k]).0.blobs[SlotOf(actions[k].tid)].value != actions[k].value
  }

  function AcceptedTids(actions: seq<Action>): seq<u16> {
    if actions == [] then []
    else
      var a := actions[|actions| - 1];
      AcceptedTids(actions[..|actions| - 1]) + if Accepted(a) then [a.tid] else []
  }

  function FirstOf<T>(s: seq<T>, n: nat): seq<T> {
    if |s| <= n then s else s[..n]
  }

  /** What one action adds to the account. */
  lemma TallyStep(h: Held, y: Tally, a: Action)
    requires |h.blobs| == SLOTS
    ensures var y' := Perform(h, y, a).1;
            && y'.voided == (y.voided || Refused(a))
            && y'.tids == (if Accepted(a) && |y.tids| < MAX_SET_TIDS then y.tids + [a.tid] else y.tids)
            && y'.polled == (y.polled || (a.Polled? && a.request.Some?))
            && (Accepted(a) ==> 0 <= SlotOf(a.tid) < SLOTS)
            && y'.persistent
               == (y.persistent
                   || (Accepted(a) && IsTidPersistent(a.tid) && h.blobs[SlotOf(a.tid)].value != a.value))
  {
    hide SlotFrom, SLOT_TIDS, IsTextTid, IsValidSetPayload, IsTidPersistent;
  }

  /** A poll whose range and endpoint match this node. */
  predicate Matched(a: Action)
    ensures Matched(a) ==> a.Polled? && a.request.Some?
  {
    a.Polled? && a.request.Some?
  }

  /** The last action that is an accepted SET, or -1. */
  function LastAccepted(actions: seq<Action>): (r: int)
    ensures -1 <= r < |actions|
    ensures r >= 0 ==> Accepted(actions[r])
    ensures forall k :: r < k < |actions| ==> !Accepted(actions[k])
  {
    if actions == [] then -1
    else if Accepted(actions[|actions| - 1]) then |actions| - 1
    else LastAccepted(actions[..|actions| - 1])
  }

  /** The last action that is a matching poll, or -1. */
  function LastMatched(actions: seq<Action>): (r: int)
    ensures -1 <= r < |actions|
    ensures r >= 0 ==> Matched(actions[r])
    ensures forall k :: r < k < |actions| ==> !Matched(actions[k])
  {
    if actions == [] then -1
    else if Matched(actions[|actions| - 1]) then |actions| - 1
    else LastMatched(actions[..|actions| - 1])
  }

  lemma LastActionMeans(h: Held, y: Tally, a: Action)
    requires |h.blobs| == SLOTS
    ensures var (h', y') := Perform(h, y, a);
            && y'.replyEndpoint == (if Accepted(a) then a.endpoint else y.replyEndpoint)
            && h'.request == (if Matched(a) then a.request.value else h.request)
            && y'.polled == (y.polled || Matched(a))
  {
    hide SlotFrom, SLOT_TIDS, IsTextTid, IsValidSetPayload, IsTidPersistent;
  }

  /**
   The confirmation is to come from the endpoint of the last accepted SET; from the
   packet's own if there is none.
   */
  lemma {:induction false} ReplyEndpointMeans(h: Held, endpoint: u16, actions: seq<Action>)
    requires |h.blobs| == SLOTS
    ensures var k := LastAccepted(actions);
            PerformAll(h, NewTally(endpoint), actions).1.replyEndpoint
            == if k >= 0 then actions[k].endpoint else endpoint
    decreases |actions|
  {
    hide Accepted, Perform;
    if actions != [] {
      var front, last := actions[..|actions| - 1], actions[|actions| - 1];
      ReplyEndpointMeans(h, endpoint, front);
      var (h', y') := PerformAll(h, NewTally(endpoint), front);
      LastActionMeans(h', y', last);
    }
  }

  /** A packet counts as a poll exactly if one of its polls matches, and the last that does says what is asked. */
  lemma {:induction false} RequestMeans(h: Held, endpoint: u16, actions: seq<Action>)
    requires |h.blobs| == SLOTS
    ensures var (h', y) := PerformAll(h, NewTally(endpoint), actions);
            var k := LastMatched(actions);
            && (y.polled <==> k >= 0)
            && h'.request == if k >= 0 then actions[k].request.value else h.request
    decreases |actions|
  {
    hide Perform, Matched;
    if actions != [] {
      var front, last := actions[..|actions| - 1], actions[|actions| - 1];
      RequestMeans(h, endpoint, front);
      var (h', y') := PerformAll(h, NewTally(endpoint), front);
      LastActionMeans(h', y', last);
    }
  }

  /** A packet is voided exactly when one of its SETs is refused. */
  lemma {:induction false} VoidedMeans(h: Held, endpoint: u16, actions: seq<Action>)
    requires |h.blobs| == SLOTS
    ensures PerformAll(h, NewTally(endpoint), actions).1.voided <==>
            exists k :: 0 <= k < |actions| && Refused(actions[k])
    decreases |actions|
  {
    hide Perform, Refused, Accepted;
    if actions != [] {
      var front, last := actions[..|actions| - 1], actions[|actions| - 1];
      VoidedMeans(h, endpoint, front);
      var (h', y') := PerformAll(h, NewTally(endpoint), front);
      TallyStep(h', y', last);
      assert forall k :: 0 <= k < |front| ==> actions[k] == front[k];
    }
  }

  /** The TIDs to confirm are those of the first 32 accepted SETs, in order. */
  lemma {:induction false} TidsMean(h: Held, endpoint: u16, actions: seq<Action>)
    requires |h.blobs| == SLOTS
    ensures PerformAll(h, NewTally(endpoint), actions).1.tids == FirstOf(AcceptedTids(actions), MAX_SET_TIDS)
    decreases |actions|
  {
    hide Perform, Refused, Accepted;
    if actions != [] {
      var front, last := actions[..|actions| - 1], actions[|actions| - 1];
      TidsMean(h, endpoint, front);
      var (h', y') := PerformAll(h, NewTally(endpoint), front);
      TallyStep(h', y', last);
    }
  }

  /** The persistent mark is set exactly when some accepted SET changed a persistent TID. */
  lemma {:induction false} PersistentMeans(h: Held, endpoint: u16, actions: seq<Action>)
    requires |h.blobs| == SLOTS
    ensures PerformAll(h, NewTally(endpoint), actions).1.persistent <==>
            exists k :: 0 <= k < |actions| && ChangesPersistent(h, NewTally(endpoint), actions, k)
    decreases |actions|
  {
    hide Perform, Refused, Accepted, ChangesPersistent, IsTidPersistent, SlotOf;
    if actions != [] {
      var n := |actions| - 1;
      PersistentMeans(h, endpoint, actions[..n]);
      var (h', y') := PerformAll(h, NewTally(endpoint), actions[..n]);
      TallyStep(h', y', actions[n]);
      SameChanges(h, endpoint, actions);
    }
  }

  lemma SameChanges(h: Held, endpoint: u16, actions: seq<Action>)
    requires |h.blobs| == SLOTS && actions != []
    ensures var n := |actions| - 1; var y := NewTally(endpoint);
            && (forall k :: 0 <= k < n ==>
                  ChangesPersistent(h, y, actions, k) == ChangesPersistent(h, y, actions[..n], k))
            && (Accepted(actions[n]) ==> 0 <= SlotOf(actions[n].tid) < SLOTS)
            && ChangesPersistent(h, y, actions, n)
               == (Accepted(actions[n]) && IsTidPersistent(actions[n].tid)
                   && PerformAll(h, y, actions[..n]).0.blobs[SlotOf(actions[n].tid)].value != actions[n].value)
  {
    hide PerformAll, IsTidPersistent, SlotFrom, IsTextTid, IsValidSetPayload;
    var n := |actions| - 1;
    forall k | 0 <= k < n
      ensures ChangesPersistent(h, NewTally(endpoint), actions, k)
              == ChangesPersistent(h, NewTally(endpoint), actions[..n], k)
    {
      assert actions[..k] == actions[..n][..k];
    }
  }

  /** An accepted TID has a slot, and the packet's last write to it is some non-empty value. */
  lemma {:induction false} AcceptedIsWritten(actions: seq<Action>, k: nat)
    requires k < |AcceptedTids(actions)|
    requires forall j :: 0 <= j < |actions| && actions[j].Levels? ==> actions[j].slots != []
    ensures var i := SlotOf(AcceptedTids(actions)[k]);
            0 <= i < SLOTS && LastWrite(actions, i).Some? && LastWrite(actions, i).value != []
    decreases |actions|
  {
    var front, last := actions[..|actions| - 1], actions[|actions| - 1];
    assert forall j :: 0 <= j < |front| ==> front[j] == actions[j];
    if k < |AcceptedTids(front)| {
      AcceptedIsWritten(front, k);
      WritesSomething(last, SlotOf(AcceptedTids(front)[k]));
      hide SlotOf, Writes, Accepted;
    } else {
      WritesSomething(last, SlotOf(last.tid));
      hide SlotOf, Writes;
    }
  }

  lemma WritesSomething(a: Action, i: int)
    requires a.Levels? ==> a.slots != []
    ensures Writes(a, i).Some? ==> Writes(a, i).value != []
    ensures Accepted(a) ==> 0 <= SlotOf(a.tid) < SLOTS && Writes(a, SlotOf(a.tid)).Some?
  {
    hide SlotFrom, IsTextTid;
  }

  /** A packet is confirmed exactly when it holds an accepted SET and no refused one. */
  lemma CommitsMeans(h: Held, endpoint: u16, actions: seq<Action>)
    requires |h.blobs| == SLOTS
    ensures Commits(PerformAll(h, NewTally(endpoint), actions).1) <==>
            (exists k :: 0 <= k < |actions| && Accepted(actions[k]))
            && !(exists k :: 0 <= k < |actions| && Refused(actions[k]))
  {
    hide PerformAll, Refused, Accepted;
    VoidedMeans(h, endpoint, actions);
    TidsMean(h, endpoint, actions);
    SomeAccepted(actions);
  }

  lemma {:induction false} SomeAccepted(actions: seq<Action>)
    ensures AcceptedTids(actions) != [] <==> exists k :: 0 <= k < |actions| && Accepted(actions[k])
    decreases |actions|
  {
    hide Accepted;
    if actions != [] {
      var front := actions[..|actions| - 1];
      SomeAccepted(front);
      assert forall k :: 0 <= k < |front| ==> actions[k] == front[k];
    }
  }

  // ------------------------------------------------------- CHANGE_COUNT's duty

  /** Some accepted SET of the packet changed a persistent parameter. */
  ghost predicate ChangesSomething(h: Held, endpoint: u16, actions: seq<Action>)
    requires |h.blobs| == SLOTS
  {
    exists k :: 0 <= k < |actions| && ChangesPersistent(h, NewTally(endpoint), actions, k)
  }

  ghost predicate RefusesSomething(actions: seq<Action>) {
    exists k :: 0 <= k < |actions| && Refused(actions[k])
  }

  /** CHANGE_COUNT advances by one exactly for a packet that refuses no SET and changes a persistent parameter. */
  lemma CountMeans(h: Held, endpoint: u16, actions: seq<Action>, count: u16)
    requires |h.blobs| == SLOTS
    ensures CountAfter(count, PerformAll(h, NewTally(endpoint), actions).1)
         == if ChangesSomething(h, endpoint, actions) && !RefusesSomething(actions) then (count + 1) % WRAP16 else count
  {
    hide PerformAll, Refused;
    CommitsMeans(h, endpoint, actions);
    PersistentMeans(h, endpoint, actions);
    if ChangesSomething(h, endpoint, actions) {
      var k :| 0 <= k < |actions| && ChangesPersistent(h, NewTally(endpoint), actions, k);
      assert Accepted(actions[k]);
    }
  }

  lemma LevelsAreNotPersistent()
    ensures !IsTidPersistent(TID_LEVEL) && !IsTidPersistent(TID_DG_LEVEL_FOLDBACK)
  {
  }

  lemma ChangeByOne(h: Held, y: Tally, a: Action, i: nat)
    requires InPlace(h.blobs) && i < SLOTS && IsTidPersistent(SLOT_TIDS[i])
    ensures y.persistent ==> Perform(h, y, a).1.persistent
    ensures Perform(h, y, a).0.blobs[i].value != h.blobs[i].value ==> Perform(h, y, a).1.persistent
  {
    LevelsAreNotPersistent();
    LevelLabels();
    hide SLOT_TIDS, SlotFrom, IsTextTid, IsValidSetPayload, IsTidPersistent;
  }

  /** No persistent parameter changes over a packet without setting the persistent mark. */
  lemma {:induction false} ChangeIsMarked(h: Held, y: Tally, actions: seq<Action>, i: nat)
    requires InPlace(h.blobs) && i < SLOTS && IsTidPersistent(SLOT_TIDS[i])
    ensures PerformAll(h, y, actions).0.blobs[i].value != h.blobs[i].value || y.persistent ==>
              PerformAll(h, y, actions).1.persistent
    decreases |actions|
  {
    hide Perform, IsTidPersistent, SLOT_TIDS;
    if actions != [] {
      var front := actions[..|actions| - 1];
      ChangeIsMarked(h, y, front, i);
      LabelsStay(h, y, front);
      var (h', y') := PerformAll(h, y, front);
      ChangeByOne(h', y', actions[|actions| - 1], i);
    }
  }

  /** In a packet with no refused SET, a changed persistent parameter always advances CHANGE_COUNT. */
  lemma ChangeIsCounted(h: Held, endpoint: u16, actions: seq<Action>, i: nat, count: u16)
    requires InPlace(h.blobs) && i < SLOTS && IsTidPersistent(SLOT_TIDS[i])
    requires !RefusesSomething(actions)
    ensures var (h', y') := PerformAll(h, NewTally(endpoint), actions);
            h'.blobs[i].value != h.blobs[i].value ==> CountAfter(count, y') == (count + 1) % WRAP16
  {
    hide PerformAll, IsTidPersistent, SLOT_TIDS, RefusesSomething;
    ChangeIsMarked(h, NewTally(endpoint), actions, i);
    PersistentMeans(h, endpoint, actions);
    CountMeans(h, endpoint, actions, count);
  }

  /**
   A voided packet leaves every parameter as it was exactly when the last value
   it writes to each, refused SETs aside, is the one already held.
   */
  lemma VoidedPacketIsHarmless(h: Held, endpoint: u16, actions: seq<Action>)
    requires |h.blobs| == SLOTS && RefusesSomething(actions)
    ensures var (h', y') := PerformAll(h, NewTally(endpoint), actions);
            && !Commits(y')
            && ((forall i :: 0 <= i < SLOTS ==> h'.blobs[i].value == h.blobs[i].value) <==>
                (forall i :: 0 <= i < SLOTS ==>
                   LastWrite(actions, i) == None || LastWrite(actions, i) == Some(h.blobs[i].value)))
  {
    hide PerformAll, LastWrite;
    VoidedMeans(h, endpoint, actions);
    forall i | 0 <= i < SLOTS
      ensures PerformAll(h, NewTally(endpoint), actions).0.blobs[i].value
              == Otherwise(LastWrite(actions, i), h.blobs[i].value)
    {
      LastWriteStays(h, NewTally(endpoint), actions, i);
    }
  }

  /** Two SETs of the multicast state: to 1, which is valid, and to 9, which is not. */
  const MULT_TWICE: seq<byte> := [0x06, 0x06, 0x00, 0x01, 0x01, 0x06, 0x06, 0x00, 0x01, 0x09]

  lemma MultTwiceBlocks()
    ensures MULT_TWICE == StreamBytes([Tlv(TID_RT_MULT, [1]), Tlv(TID_RT_MULT, [9])])
    ensures ReadStream(MULT_TWICE, 0).tlvs == [Tlv(TID_RT_MULT, [1]), Tlv(TID_RT_MULT, [9])]
  {
    var t, u := Tlv(TID_RT_MULT, [1]), Tlv(TID_RT_MULT, [9]);
    assert TlvBytes(t) == [0x06, 0x06, 0x00, 0x01, 0x01] && TlvBytes(u) == [0x06, 0x06, 0x00, 0x01, 0x09];
    hide TlvBytes;
    StreamSingle(u);
    assert StreamBytes([t, u]) == TlvBytes(t) + StreamBytes([t, u][1..]) && [t, u][1..] == [u];
    assert MULT_TWICE[0..] == MULT_TWICE;
    hide StreamBytes, ReadStream;
    StreamRoundTrip(MULT_TWICE, 0, [t, u]);
  }

  lemma MultIsRoot()
    ensures IsTidAllowedForEndpoint(TID_RT_MULT, 0)
  {
    assert TABLE[4].tid == TID_RT_MULT;
    var i := IndexOf(TABLE, TID_RT_MULT);
    assert 0 <= i <= 4;
  }

  /** What those SETs mean in a command to the root endpoint. */
  lemma MultTwiceMeans(c: Context, scope: seq<byte>, tuid: Tuid)
    requires U.ValidScope(scope) && !(U.POLL <= scope)
    requires c.uri == U.Path(L.ManagerSegments(scope, tuid, 0)) && c.endpoint == 0
    ensures Meanings(c, ReadStream(MULT_TWICE, 0).tlvs) == [Set(TID_RT_MULT, [1], 0), Set(TID_RT_MULT, [9], 0)]
  {
    MultTwiceBlocks();
    MultIsRoot();
    L.ManagerLaneTids(scope, tuid, 0, TID_RT_MULT);
    hide L.IsTidAllowedForUriLane, L.UniverseOf, IsTidAllowedForEndpoint, ReadStream, U.Path, MULT_TWICE;
  }

  /**
   A voided packet is not rolled back: in a command whose second SET is refused,
   the first leaves its value behind, unconfirmed and uncounted.
   */
  lemma VoidedPacketLeavesItsMark(h: Held, count: u16, c: Context, scope: seq<byte>, tuid: Tuid)
    requires U.ValidScope(scope) && !(U.POLL <= scope)
    requires c.uri == U.Path(L.ManagerSegments(scope, tuid, 0)) && c.endpoint == 0
    requires InPlace(h.blobs) && h.blobs[5].value == [0]
    ensures var (h', y') := PerformAll(h, NewTally(c.endpoint), Meanings(c, ReadStream(MULT_TWICE, 0).tlvs));
            && !Commits(y') && CountAfter(count, y') == count
            && h'.blobs[5].value == [1]
  {
    var actions := [Set(TID_RT_MULT, [1], 0), Set(TID_RT_MULT, [9], 0)];
    MultTwiceMeans(c, scope, tuid);
    MultSlot();
    MultAllowed();
    hide SLOT_TIDS, SlotFrom, SlotOf, Meanings, ReadStream, MULT_TWICE, U.Path, SetAllowed, PerformAll;
    assert Refused(actions[1]);
    VoidedMeans(h, 0, actions);
    LastWriteStays(h, NewTally(0), actions, 5);
    LastOfTwo(actions, 5);
  }

  lemma MultAllowed()
    ensures SetAllowed(TID_RT_MULT, [1]) && !SetAllowed(TID_RT_MULT, [9])
  {
    MultSlot();
    hide SlotOf;
  }

  lemma MultSlot()
    ensures SlotOf(TID_RT_MULT) == 5
  {
    SlotCount();
    assert SLOT_TIDS[5] == TID_RT_MULT;
    SlotOfLabel(5);
  }

  lemma LastOfTwo(actions: seq<Action>, i: int)
    requires |actions| == 2 && Writes(actions[1], i).None? && Writes(actions[0], i).Some?
    ensures LastWrite(actions, i) == Writes(actions[0], i)
  {
    hide Writes;
    assert actions[..1] == [actions[0]] && LastWrite([actions[0]], i) == Writes(actions[0], i);
  }
}
