/**
 What holds of a node over any run of accepted packets and of changes made at
 the node itself.
 */
module NodeRuns {
  import opened Bytes
  import opened Tids
  import opened TlvStream
  import opened NodeProfile
  import opened NodeStore
  import opened NodeDefaults
  import opened NodeBlocks
  import opened NodeTransaction

  /** `flushed` says whether the packet's poll replies all went out. */
  datatype Event =
    | Packet(c: Context, payload: seq<byte>, flushed: bool)
    | LabelCommit(text: seq<byte>)
    | UniverseCommit(universe: u16)

  datatype NodeState = NodeState(held: Held, count: u16)

  function Actions(e: Event): seq<Action>
    requires e.Packet?
  {
    Meanings(e.c, ReadStream(e.payload, 0).tlvs)
  }

  function Next(s: NodeState, e: Event): (r: NodeState)
    requires |s.held.blobs| == SLOTS
    ensures |r.held.blobs| == SLOTS
  {
    match e
    case Packet(c, _, flushed) =>
      var (h, y) := PerformAll(s.held, NewTally(c.endpoint), Actions(e));
      NodeState(Held(BlobsAfter(h, flushed), h.request), CountAfter(s.count, y))
    case LabelCommit(text) => s.(held := s.held.(blobs := LabelCommitted(s.held.blobs, text)))
    case UniverseCommit(u) => s.(held := s.held.(blobs := UniverseCommitted(s.held.blobs, u)))
  }

  /** The node after the first `n` events. */
  function NodeAfter(start: NodeState, es: seq<Event>, n: nat): (r: NodeState)
    requires |start.held.blobs| == SLOTS && n <= |es|
    ensures |r.held.blobs| == SLOTS
  {
    if n == 0 then start else Next(NodeAfter(start, es, n - 1), es[n - 1])
  }

  function Started(deviceLabel: seq<byte>, universe: u16): NodeState {
    NodeState(Held(InitialStore(deviceLabel, universe), Request(QUERY_HEARTBEAT, false, true)), 0)
  }

  // ---------------------------------------------------------------- last write

  /** The last value an event writes to slot `i`, if any. */
  function EventWrite(e: Event, i: int): Option<seq<byte>> {
    match e
    case Packet(_, _, _) => LastWrite(Actions(e), i)
    case LabelCommit(text) => if i == LABEL_SLOT && text != [] then Some(WireText(text, LABEL_LIMIT)) else None
    case UniverseCommit(u) => if i == UNIVERSE_SLOT then Some(U16(u)) else None
  }

  function LastRunWrite(es: seq<Event>, n: nat, i: int): Option<seq<byte>>
    requires n <= |es|
  {
    if n == 0 then None
    else if EventWrite(es[n - 1], i).Some? then EventWrite(es[n - 1], i)
    else LastRunWrite(es, n - 1, i)
  }

  /**
   At any point of a run, each parameter holds the last value written to it by
   an accepted SET, a level block or a change at the node; refused SETs and
   voided transactions leave no other trace.
   */
  lemma {:induction false} EveryValueIsTheLastWritten(start: NodeState, es: seq<Event>, n: nat, i: nat)
    requires |start.held.blobs| == SLOTS && n <= |es| && i < SLOTS
    ensures NodeAfter(start, es, n).held.blobs[i].value
         == Otherwise(LastRunWrite(es, n, i), start.held.blobs[i].value)
  {
    if n > 0 {
      EveryValueIsTheLastWritten(start, es, n - 1, i);
      OneEventWrites(NodeAfter(start, es, n - 1), es[n - 1], i);
      hide Next, EventWrite;
    }
  }

  lemma OneEventWrites(s: NodeState, e: Event, i: nat)
    requires |s.held.blobs| == SLOTS && i < SLOTS
    ensures Next(s, e).held.blobs[i].value == Otherwise(EventWrite(e, i), s.held.blobs[i].value)
  {
    if e.Packet? {
      LastWriteStays(s.held, NewTally(e.c.endpoint), Actions(e), i);
      hide PerformAll, LastWrite, Actions, Searched;
    } else {
      hide IsTidWriteOnly, WireText;
    }
  }

  lemma {:induction false} PacketWritesNoEmpty(actions: seq<Action>, i: int)
    requires forall k :: 0 <= k < |actions| && actions[k].Levels? ==> actions[k].slots != []
    ensures LastWrite(actions, i) != Some([])
    decreases |actions|
  {
    hide Writes;
    if actions != [] {
      var front := actions[..|actions| - 1];
      assert forall k :: 0 <= k < |front| ==> front[k] == actions[k];
      PacketWritesNoEmpty(front, i);
      WritesSomething(actions[|actions| - 1], i);
    }
  }

  /**
   A parameter that holds a value is never emptied. So the endpoint count stays
   set, and the defaults, filled in only while it is empty, are filled in once.
   */
  lemma {:induction false} NeverEmptied(start: NodeState, es: seq<Event>, n: nat, i: nat)
    requires |start.held.blobs| == SLOTS && n <= |es| && i < SLOTS && start.held.blobs[i].value != []
    ensures NodeAfter(start, es, n).held.blobs[i].value != []
  {
    if n > 0 {
      var e := es[n - 1];
      NeverEmptied(start, es, n - 1, i);
      OneEventWrites(NodeAfter(start, es, n - 1), e, i);
      if e.Packet? {
        LevelsAreNotEmpty(e.c, ReadStream(e.payload, 0).tlvs);
        PacketWritesNoEmpty(Actions(e), i);
      }
      hide Next, LastWrite, Actions;
    }
  }

  // ----------------------------------------------------------- store invariant

  /** What the run needs of the node's own interface: universes in range. */
  predicate InRange(e: Event) {
    e.UniverseCommit? ==> MIN_UNIVERSE <= e.universe <= MAX_UNIVERSE
  }

  lemma SettingsAreConstrained()
    ensures IsConstrained(TID_RT_DEVICE_LABEL) && IsConstrained(TID_EP_UNIVERSE)
    ensures !IsConstrained(TID_LEVEL) && !IsConstrained(TID_DG_LEVEL_FOLDBACK)
  {
  }

  lemma PerformKeepsValid(h: Held, y: Tally, a: Action)
    requires StoreValid(h.blobs) && (a.Levels? ==> |a.slots| <= MAX_DMX_SLOTS)
    ensures StoreValid(Perform(h, y, a).0.blobs)
  {
    LevelLabels();
    SettingsAreConstrained();
    hide SLOT_TIDS, SlotFrom, IsTextTid, IsConstrained, IsValidSetPayload, IsTidPersistent;
    match a
    case Levels(slots) =>
      var s := h.blobs;
      WriteKeepsValid(s, LEVEL_SLOT,
                      s[LEVEL_SLOT].(tid := TID_LEVEL, value := slots, valueType := Raw, uiStale := true));
      var s' := s[LEVEL_SLOT := s[LEVEL_SLOT].(tid := TID_LEVEL, value := slots, valueType := Raw, uiStale := true)];
      WriteKeepsValid(s', FOLDBACK_SLOT,
                      s'[FOLDBACK_SLOT].(tid := TID_DG_LEVEL_FOLDBACK, value := slots, valueType := Raw));
    case Set(tid, value, _) =>
      if SetAllowed(tid, value) {
        WriteKeepsValid(h.blobs, SlotOf(tid), SetBlob(h.blobs[SlotOf(tid)], tid, value, true));
      }
    case _ =>
  }

  lemma {:induction false} PacketKeepsValid(h: Held, y: Tally, actions: seq<Action>)
    requires StoreValid(h.blobs)
    requires forall k :: 0 <= k < |actions| && actions[k].Levels? ==> |actions[k].slots| <= MAX_DMX_SLOTS
    ensures StoreValid(PerformAll(h, y, actions).0.blobs)
    decreases |actions|
  {
    hide Perform, StoreValid, InPlace;
    if actions != [] {
      var front := actions[..|actions| - 1];
      assert forall k :: 0 <= k < |front| ==> front[k] == actions[k];
      StoreSize(h.blobs);
      PacketKeepsValid(h, y, front);
      var (h', y') := PerformAll(h, y, front);
      PerformKeepsValid(h', y', actions[|actions| - 1]);
    }
  }

  lemma StoreSize(s: seq<Blob>)
    requires StoreValid(s)
    ensures |s| == SLOTS
  {
  }

  lemma LevelsFit(c: Context, ts: seq<Tlv>)
    ensures forall k :: 0 <= k < |ts| && Meanings(c, ts)[k].Levels? ==> |Meanings(c, ts)[k].slots| <= MAX_DMX_SLOTS
  {
  }

  /** A universe entered at the node keeps the store valid exactly when it is in range: nothing checks it there. */
  lemma UniverseCommitKeepsValid(s: seq<Blob>, universe: u16)
    requires StoreValid(s)
    ensures StoreValid(UniverseCommitted(s, universe)) <==> MIN_UNIVERSE <= universe <= MAX_UNIVERSE
  {
    SettingLabels();
    SettingsAreConstrained();
    U16RoundTrip(universe, [0, 0]);
    hide SLOT_TIDS, IsConstrained, IsTidWriteOnly;
    var b := Committed(s[UNIVERSE_SLOT], TID_EP_UNIVERSE, U16(universe), U16Value);
    assert b.value == U16(universe) && b.tid == TID_EP_UNIVERSE;
    assert IsValidSetPayload(TID_EP_UNIVERSE, U16(universe)) <==> MIN_UNIVERSE <= universe <= MAX_UNIVERSE;
    hide IsValidSetPayload, Committed, U16;
    if MIN_UNIVERSE <= universe <= MAX_UNIVERSE {
      WriteKeepsValid(s, UNIVERSE_SLOT, b);
    } else {
      assert UniverseCommitted(s, universe)[UNIVERSE_SLOT] == b;
    }
  }

  lemma LabelCommitKeepsValid(s: seq<Blob>, text: seq<byte>)
    requires StoreValid(s)
    ensures StoreValid(LabelCommitted(s, text))
  {
    if text != [] {
      SettingLabels();
      var b := Committed(s[LABEL_SLOT], TID_RT_DEVICE_LABEL, WireText(text, LABEL_LIMIT), Text);
      assert IsValidSetPayload(TID_RT_DEVICE_LABEL, WireText(text, LABEL_LIMIT));
      assert b.value == WireText(text, LABEL_LIMIT) && b.tid == TID_RT_DEVICE_LABEL;
      hide SLOT_TIDS, IsConstrained, IsTidWriteOnly, IsValidSetPayload, Committed, WireText;
      WriteKeepsValid(s, LABEL_SLOT, b);
    }
  }

  lemma EventKeepsValid(s: NodeState, e: Event)
    requires StoreValid(s.held.blobs) && InRange(e)
    ensures StoreValid(Next(s, e).held.blobs)
  {
    hide StoreValid, InPlace;
    StoreSize(s.held.blobs);
    match e
    case Packet(c, payload, flushed) =>
      LevelsFit(c, ReadStream(payload, 0).tlvs);
      PacketKeepsValid(s.held, NewTally(c.endpoint), Actions(e));
      ClearKeepsValid(PerformAll(s.held, NewTally(c.endpoint), Actions(e)).0.blobs);
    case LabelCommit(text) => LabelCommitKeepsValid(s.held.blobs, text);
    case UniverseCommit(u) => UniverseCommitKeepsValid(s.held.blobs, u);
  }

  /**
   From acceptable settings, under any interleaving of packets and changes at
   the node, every parameter that SET validation constrains holds a valid value
   of at most 512 bytes, and every TID keeps its slot.
   */
  lemma {:induction false} StoreStaysValid(deviceLabel: seq<byte>, universe: u16, es: seq<Event>, n: nat)
    requires AcceptableSettings(deviceLabel, universe)
    requires n <= |es| && forall k :: 0 <= k < n ==> InRange(es[k])
    ensures StoreValid(NodeAfter(Started(deviceLabel, universe), es, n).held.blobs)
  {
    hide StoreValid, InPlace, Next, AcceptableSettings, InitialStore;
    if n == 0 {
      InitialStoreIsValid(deviceLabel, universe);
    } else {
      StoreStaysValid(deviceLabel, universe, es, n - 1);
      EventKeepsValid(NodeAfter(Started(deviceLabel, universe), es, n - 1), es[n - 1]);
    }
  }

  // ------------------------------------------------------------- CHANGE_COUNT

  /** A packet that must be counted: no SET refused, and one that changed a persistent parameter. */
  ghost predicate MustCount(s: NodeState, e: Event)
    requires |s.held.blobs| == SLOTS
  {
    e.Packet? && ChangesSomething(s.held, e.c.endpoint, Actions(e)) && !RefusesSomething(Actions(e))
  }

  /** How many of the first `n` events must be counted. */
  ghost function Countable(start: NodeState, es: seq<Event>, n: nat): nat
    requires |start.held.blobs| == SLOTS && n <= |es|
  {
    if n == 0 then 0
    else Countable(start, es, n - 1) + if MustCount(NodeAfter(start, es, n - 1), es[n - 1]) then 1 else 0
  }

  lemma OneEventCounts(s: NodeState, e: Event)
    requires |s.held.blobs| == SLOTS
    ensures Next(s, e).count == if MustCount(s, e) then (s.count + 1) % WRAP16 else s.count
  {
    hide Actions, PerformAll, ChangesSomething, RefusesSomething, CountAfter, BlobsAfter, LabelCommitted;
    hide UniverseCommitted;
    if e.Packet? {
      CountMeans(s.held, e.c.endpoint, Actions(e), s.count);
    }
  }

  lemma AddOneMod(n: nat, m: nat)
    requires m == n % WRAP16
    ensures (m + 1) % WRAP16 == (n + 1) % WRAP16
  {
    assert n == WRAP16 * (n / WRAP16) + m;
  }

  /** CHANGE_COUNT is, modulo 2^16, the number of packets with no refused SET and a changed persistent parameter. */
  lemma {:induction false} CountIsExact(start: NodeState, es: seq<Event>, n: nat)
    requires |start.held.blobs| == SLOTS && n <= |es|
    ensures NodeAfter(start, es, n).count == (start.count + Countable(start, es, n)) % WRAP16
  {
    hide Next, MustCount;
    if n > 0 {
      CountIsExact(start, es, n - 1);
      OneEventCounts(NodeAfter(start, es, n - 1), es[n - 1]);
      AddOneMod(start.count + Countable(start, es, n - 1), NodeAfter(start, es, n - 1).count);
    }
  }

  /**
   An event changes parameter `i` behind CHANGE_COUNT's back: it writes another
   value, either from the node's own interface or in a packet one of whose SETs
   is refused.
   */
  ghost predicate Slips(s: NodeState, e: Event, i: nat)
    requires |s.held.blobs| == SLOTS && i < SLOTS
  {
    && EventWrite(e, i).Some? && EventWrite(e, i).value != s.held.blobs[i].value
    && (e.Packet? ==> RefusesSomething(Actions(e)))
  }

  /** Those are exactly the events that change a persistent parameter and leave the count as it was. */
  lemma SlipsMeans(s: NodeState, e: Event, i: nat)
    requires InPlace(s.held.blobs) && i < SLOTS && IsTidPersistent(SLOT_TIDS[i])
    ensures Slips(s, e, i) <==> Next(s, e).held.blobs[i].value != s.held.blobs[i].value && Next(s, e).count == s.count
  {
    SlipsOrCounts(s, e, i);
    hide IsTidPersistent, SLOT_TIDS, InPlace, Next, EventWrite, RefusesSomething, MustCount, Actions;
    if e.Packet? && !RefusesSomething(Actions(e)) {
      UnrefusedChangeCounts(s, e, i);
    }
  }

  lemma SlipsOrCounts(s: NodeState, e: Event, i: nat)
    requires |s.held.blobs| == SLOTS && i < SLOTS
    ensures Next(s, e).held.blobs[i].value != s.held.blobs[i].value <==>
            EventWrite(e, i).Some? && EventWrite(e, i).value != s.held.blobs[i].value
    ensures Next(s, e).count == s.count <==> !MustCount(s, e)
    ensures MustCount(s, e) ==> e.Packet? && !RefusesSomething(Actions(e))
  {
    hide Next, EventWrite, RefusesSomething, ChangesSomething, Actions;
    OneEventWrites(s, e, i);
    OneEventCounts(s, e);
  }

  lemma UnrefusedChangeCounts(s: NodeState, e: Event, i: nat)
    requires InPlace(s.held.blobs) && i < SLOTS && IsTidPersistent(SLOT_TIDS[i])
    requires e.Packet? && !RefusesSomething(Actions(e))
    ensures Next(s, e).held.blobs[i].value != s.held.blobs[i].value ==> MustCount(s, e)
  {
    hide IsTidPersistent, SLOT_TIDS, InPlace, PerformAll, Actions, RefusesSomething, ChangesSomething;
    hide Searched, CountAfter;
    InPlaceSize(s.held.blobs);
    var actions := Actions(e);
    ChangeIsCounted(s.held, e.c.endpoint, actions, i, s.count);
    CountMeans(s.held, e.c.endpoint, actions, s.count);
  }

  /** Every event leaves every TID in its slot. */
  lemma EventKeepsLabels(s: NodeState, e: Event)
    requires InPlace(s.held.blobs)
    ensures InPlace(Next(s, e).held.blobs)
  {
    if e.Packet? {
      LabelsStay(s.held, NewTally(e.c.endpoint), Actions(e));
      hide PerformAll, Actions, SLOT_TIDS, Searched;
    } else {
      SettingLabels();
      hide SLOT_TIDS, IsTidWriteOnly, WireText;
    }
  }

  lemma InPlaceSize(s: seq<Blob>)
    requires InPlace(s)
    ensures |s| == SLOTS
  {
  }

  lemma {:induction false} LabelsStayInRun(start: NodeState, es: seq<Event>, n: nat)
    requires InPlace(start.held.blobs) && n <= |es|
    ensures InPlace(NodeAfter(start, es, n).held.blobs)
  {
    assert |start.held.blobs| == SLOTS;
    hide InPlace, Next;
    if n > 0 {
      LabelsStayInRun(start, es, n - 1);
      EventKeepsLabels(NodeAfter(start, es, n - 1), es[n - 1]);
    }
  }

  lemma {:induction false} CountableGrows(start: NodeState, es: seq<Event>, a: nat, b: nat)
    requires |start.held.blobs| == SLOTS && a <= b <= |es|
    ensures Countable(start, es, a) <= Countable(start, es, b) <= Countable(start, es, a) + (b - a)
    decreases b
  {
    hide MustCount, NodeAfter;
    if a < b {
      CountableGrows(start, es, a, b - 1);
    }
  }

  /** Fewer than 2^16 events apart, the same count means that nothing was counted in between. */
  lemma NothingCounted(start: NodeState, es: seq<Event>, a: nat, b: nat)
    requires |start.held.blobs| == SLOTS && a <= b <= |es| && b - a < WRAP16
    requires NodeAfter(start, es, a).count == NodeAfter(start, es, b).count
    ensures Countable(start, es, a) == Countable(start, es, b)
  {
    hide NodeAfter, Countable;
    CountIsExact(start, es, a);
    CountIsExact(start, es, b);
    CountableGrows(start, es, a, b);
    NoFullTurn(start.count, Countable(start, es, a), Countable(start, es, b));
  }

  lemma NoFullTurn(count: u16, a: nat, b: nat)
    requires a <= b < a + WRAP16 && (count + a) % WRAP16 == (count + b) % WRAP16
    ensures a == b
  {
  }

  lemma OneMore(start: NodeState, es: seq<Event>, n: nat)
    requires |start.held.blobs| == SLOTS && n < |es|
    ensures NodeAfter(start, es, n + 1) == Next(NodeAfter(start, es, n), es[n])
    ensures Countable(start, es, n + 1)
         == Countable(start, es, n) + if MustCount(NodeAfter(start, es, n), es[n]) then 1 else 0
  {
    hide Next, MustCount;
  }

  /** An event that neither slips nor counts leaves parameter `i` as it was. */
  lemma NeitherStays(s: NodeState, e: Event, i: nat)
    requires InPlace(s.held.blobs) && i < SLOTS && IsTidPersistent(SLOT_TIDS[i])
    requires !MustCount(s, e) && !Slips(s, e, i)
    ensures Next(s, e).held.blobs[i].value == s.held.blobs[i].value
  {
    assert |s.held.blobs| == SLOTS;
    SlipsMeans(s, e, i);
    SlipsOrCounts(s, e, i);
    hide IsTidPersistent, SLOT_TIDS, InPlace, Next, EventWrite, MustCount, Slips;
  }

  /** No event of the run slips. */
  ghost predicate NoSlip(start: NodeState, es: seq<Event>, i: nat)
    requires |start.held.blobs| == SLOTS && i < SLOTS
  {
    forall k :: 0 <= k < |es| ==> !Slips(NodeAfter(start, es, k), es[k], i)
  }

  lemma StepStays(start: NodeState, es: seq<Event>, n: nat, i: nat)
    requires InPlace(start.held.blobs) && i < SLOTS && IsTidPersistent(SLOT_TIDS[i])
    requires n < |es| && Countable(start, es, n) == Countable(start, es, n + 1) && NoSlip(start, es, i)
    ensures NodeAfter(start, es, n + 1).held.blobs[i].value == NodeAfter(start, es, n).held.blobs[i].value
  {
    assert |start.held.blobs| == SLOTS;
    hide IsTidPersistent, SLOT_TIDS, InPlace, MustCount, Next, NodeAfter, Countable, Slips;
    OneMore(start, es, n);
    LabelsStayInRun(start, es, n);
    NeitherStays(NodeAfter(start, es, n), es[n], i);
  }

  /** Without a slip and without a counted packet, parameter `i` keeps its value. */
  lemma {:induction false} ValueStays(start: NodeState, es: seq<Event>, a: nat, b: nat, i: nat)
    requires InPlace(start.held.blobs) && i < SLOTS && IsTidPersistent(SLOT_TIDS[i])
    requires a <= b <= |es| && Countable(start, es, a) == Countable(start, es, b) && NoSlip(start, es, i)
    ensures NodeAfter(start, es, b).held.blobs[i].value == NodeAfter(start, es, a).held.blobs[i].value
    decreases b
  {
    hide IsTidPersistent, SLOT_TIDS, InPlace, NodeAfter, Countable, Slips, NoSlip;
    InPlaceSize(start.held.blobs);
    if a < b {
      CountableGrows(start, es, a, b - 1);
      CountableGrows(start, es, b - 1, b);
      StepStays(start, es, b - 1, i);
      ValueStays(start, es, a, b - 1, i);
    }
  }

  /** Wherever in a run the same count is read twice, parameter `i` has the same value. */
  ghost predicate CountTells(start: NodeState, es: seq<Event>, i: nat)
    requires |start.held.blobs| == SLOTS && i < SLOTS
  {
    forall a, b :: 0 <= a <= b <= |es| && NodeAfter(start, es, a).count == NodeAfter(start, es, b).count ==>
      NodeAfter(start, es, a).held.blobs[i].value == NodeAfter(start, es, b).held.blobs[i].value
  }

  /**
   What CHANGE_COUNT is for, and exactly when it works: over fewer than 2^16
   events of any kind, a manager that reads the same count twice always finds a
   persistent parameter unchanged if and only if no event changes it from the
   node's own interface or in a packet with a refused SET.
   */
  lemma CountTellsExactly(start: NodeState, es: seq<Event>, i: nat)
    requires InPlace(start.held.blobs) && i < SLOTS && IsTidPersistent(SLOT_TIDS[i]) && |es| < WRAP16
    ensures CountTells(start, es, i) <==> NoSlip(start, es, i)
  {
    assert |start.held.blobs| == SLOTS;
    hide IsTidPersistent, SLOT_TIDS, InPlace, Countable, Next, NodeAfter, Slips;
    if NoSlip(start, es, i) {
      forall a, b | 0 <= a <= b <= |es| && NodeAfter(start, es, a).count == NodeAfter(start, es, b).count
        ensures NodeAfter(start, es, a).held.blobs[i].value == NodeAfter(start, es, b).held.blobs[i].value
      {
        NothingCounted(start, es, a, b);
        ValueStays(start, es, a, b, i);
      }
    } else {
      var k :| 0 <= k < |es| && Slips(NodeAfter(start, es, k), es[k], i);
      LabelsStayInRun(start, es, k);
      SlipsMeans(NodeAfter(start, es, k), es[k], i);
      OneMore(start, es, k);
    }
  }

  /** So over packets without a refused SET the same count means the same persistent parameters. */
  lemma SameCountSameParameters(start: NodeState, es: seq<Event>, i: nat)
    requires InPlace(start.held.blobs) && i < SLOTS && IsTidPersistent(SLOT_TIDS[i]) && |es| < WRAP16
    requires forall k :: 0 <= k < |es| ==> es[k].Packet? && !RefusesSomething(Actions(es[k]))
    requires NodeAfter(start, es, |es|).count == start.count
    ensures NodeAfter(start, es, |es|).held.blobs[i].value == start.held.blobs[i].value
  {
    assert |start.held.blobs| == SLOTS;
    CountTellsExactly(start, es, i);
    hide IsTidPersistent, SLOT_TIDS, InPlace, Next, RefusesSomething, EventWrite, Actions;
    assert NoSlip(start, es, i);
    assert NodeAfter(start, es, 0) == start;
  }

  lemma LabelIsPersistent()
    ensures IsTidPersistent(TID_RT_DEVICE_LABEL) && !IsTidWriteOnly(TID_RT_DEVICE_LABEL)
  {
    assert TABLE[3].tid == TID_RT_DEVICE_LABEL;
    var i := IndexOf(TABLE, TID_RT_DEVICE_LABEL);
    assert 0 <= i <= 3;
  }

  /** A label entered at the node changes a persistent parameter and is not counted. */
  lemma LocalChangeIsNotCounted(s: NodeState, text: seq<byte>)
    requires InPlace(s.held.blobs) && text != [] && s.held.blobs[LABEL_SLOT].value != WireText(text, LABEL_LIMIT)
    ensures IsTidPersistent(TID_RT_DEVICE_LABEL)
    ensures var r := Next(s, LabelCommit(text));
            && r.held.blobs[LABEL_SLOT].value != s.held.blobs[LABEL_SLOT].value
            && r.held.blobs[LABEL_SLOT].managerStale
            && r.count == s.count
  {
    LabelIsPersistent();
    hide SLOT_TIDS, WireText, IsTidPersistent, IsTidWriteOnly;
  }

  /**
   A change made at the node is cut to 64 characters if it is a label, stored, and
   flagged for the manager exactly if it is a change or was flagged before; nothing
   else changes.
   */
  lemma CommitMeans(s: NodeState, text: seq<byte>, universe: u16, i: nat)
    requires InPlace(s.held.blobs) && i < SLOTS
    ensures var length := if |text| % WRAP16 > 64 then 64 else |text| % WRAP16;
            var was, b := s.held.blobs[i], Next(s, LabelCommit(text)).held.blobs[i];
            if i == LABEL_SLOT && text != []
            then b == was.(value := [0x00] + text[..length], valueType := Text, managerStale := b.managerStale)
                 && (b.managerStale <==> was.managerStale || was.value != b.value || was.valueType != Text)
            else b == was
    ensures var was, b := s.held.blobs[i], Next(s, UniverseCommit(universe)).held.blobs[i];
            if i == UNIVERSE_SLOT
            then b == was.(value := U16(universe), valueType := U16Value, managerStale := b.managerStale)
                 && (b.managerStale <==> was.managerStale || was.value != b.value || was.valueType != U16Value)
            else b == was
    ensures Next(s, LabelCommit(text)).count == s.count == Next(s, UniverseCommit(universe)).count
    ensures Next(s, LabelCommit(text)).held.request == s.held.request == Next(s, UniverseCommit(universe)).held.request
  {
    SettingLabels();
    SettingsMayBeRead();
    hide SLOT_TIDS, IsTidWriteOnly, U16;
  }

  lemma SettingsMayBeRead()
    ensures !IsTidWriteOnly(TID_RT_DEVICE_LABEL) && !IsTidWriteOnly(TID_EP_UNIVERSE)
  {
    assert forall i :: 0 <= i < |TABLE| ==> !TABLE[i].writeOnly;
  }

  /** The ranges of the parameters a node acts on. */
  ghost predicate InRanges(s: seq<Blob>) {
    && |s| == SLOTS
    && |s[5].value| == 1 && s[5].value[0] <= 1
    && |s[6].value| == 1 && s[6].value[0] <= 4
    && |s[4].value| <= 65 && |s[10].value| <= 65 && |s[27].value| <= 65
    && |s[26].value| == 2 && 1 <= FromU16(s[26].value) <= 63999
    && |s[28].value| == 4
    && |s[30].value| == 1 && s[30].value[0] <= 7
    && |s[31].value| == 1
    && |s[33].value| == 3 && s[33].value[0] <= 4
    && |s[34].value| == 2 && s[34].value[0] <= 1 && s[34].value[1] <= 2
    && |s[36].value| == 1 && |s[37].value| == 1
  }

  lemma ValidIsInRange(s: seq<Blob>, i: nat, tid: u16)
    requires StoreValid(s) && i < SLOTS && SLOT_TIDS[i] == tid && IsConstrained(tid)
    ensures |s| == SLOTS && IsValidSetPayload(tid, s[i].value)
  {
    hide SLOT_TIDS, IsConstrained, IsValidSetPayload;
    assert s[i].tid == tid;
  }

  lemma RangesHold(s: seq<Blob>)
    requires StoreValid(s)
    ensures InRanges(s)
  {
    RootSlots();
    FullSlots();
    DataSlots();
    hide SLOT_TIDS, StoreValid;
    ValidIsInRange(s, 4, TID_RT_DEVICE_LABEL);
    ValidIsInRange(s, 5, TID_RT_MULT);
    ValidIsInRange(s, 6, TID_RT_IDENTIFY);
    ValidIsInRange(s, 10, TID_RT_MODEL_NAME);
    ValidIsInRange(s, 26, TID_EP_UNIVERSE);
    ValidIsInRange(s, 27, TID_EP_LABEL);
    ValidIsInRange(s, 28, TID_EP_MULT_OVERRIDE);
    ValidIsInRange(s, 30, TID_EP_DIRECTION);
    ValidIsInRange(s, 31, TID_EP_INPUT_PRIORITY);
    ValidIsInRange(s, 33, TID_EP_FAILOVER);
    ValidIsInRange(s, 34, TID_EP_DMX_TIMING);
    ValidIsInRange(s, 36, TID_EP_PROTOCOL);
    ValidIsInRange(s, 37, TID_RDM_PORT_CONFIG);
  }

  /**
   So no sequence of packets and changes at the node takes a parameter out of its
   range: the multicast states are 0 or 1, the universe is 1 to 63999, and so on.
   */
  lemma ValuesStayInRange(deviceLabel: seq<byte>, universe: u16, es: seq<Event>, n: nat)
    requires AcceptableSettings(deviceLabel, universe)
    requires n <= |es| && forall k :: 0 <= k < n ==> InRange(es[k])
    ensures InRanges(NodeAfter(Started(deviceLabel, universe), es, n).held.blobs)
  {
    hide StoreValid, InRanges, NodeAfter, InitialStore, AcceptableSettings;
    StoreStaysValid(deviceLabel, universe, es, n);
    RangesHold(NodeAfter(Started(deviceLabel, universe), es, n).held.blobs);
  }
}
