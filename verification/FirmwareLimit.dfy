/**
 The one poll reply that a node cannot build is within a manager's reach: an
 ordinary SET of the firmware version, which nothing constrains, can give it a
 text that the reply's encoder refuses.
 */
module FirmwareLimit {
  import opened Bytes
  import opened Text
  import opened Tids
  import opened UriPath
  import opened Lanes
  import opened PacketIO
  import opened SigNetOptions
  import opened TlvStream
  import opened NodeStore
  import opened NodeDefaults
  import opened NodeReceive
  import opened PollReply
  import P = NodeProfile
  import B = NodeBlocks
  import R = NodeRuns
  import T = NodeTransaction
  import SG = SignedPacket
  import SN = SenderToNode

  const FIRMWARE_SLOT: nat := 3

  /** A two-byte number and a text of which the first 65 characters are not zero. */
  predicate HasLongText(value: seq<byte>) {
    |value| >= 2 + FIRMWARE_LIMIT + 1 && forall k :: 2 <= k < 2 + FIRMWARE_LIMIT + 1 ==> value[k] != 0
  }

  lemma {:induction false} LongCString(s: seq<byte>, n: nat)
    requires n <= |s| && forall k :: 0 <= k < n ==> s[k] != 0
    ensures |CString(s)| >= n
    decreases n
  {
    if n > 0 {
      LongCString(s[1..], n - 1);
    }
  }

  lemma {:induction false} ShortCString(s: seq<byte>, k: nat)
    requires k < |s| && s[k] == 0
    ensures |CString(s)| <= k
    decreases k
  {
    if k > 0 {
      ShortCString(s[1..], k - 1);
    }
  }

  /** Such values are exactly those whose version text is over the limit. */
  lemma LongTextMeans(value: seq<byte>)
    ensures |FirmwareText(value)| > FIRMWARE_LIMIT <==> HasLongText(value)
  {
    hide CString;
    if HasLongText(value) {
      LongCString(value[2..], FIRMWARE_LIMIT + 1);
    } else if |value| >= 2 + FIRMWARE_LIMIT + 1 {
      var k :| 2 <= k < 2 + FIRMWARE_LIMIT + 1 && value[k] == 0;
      ShortCString(value[2..], k - 2);
    }
  }

  lemma LongVersionIsAllowed(value: seq<byte>)
    requires HasLongText(value) && |value| <= BLOB_MAX_BYTES
    ensures B.SetAllowed(TID_RT_FIRMWARE_VERSION, value) && SlotOf(TID_RT_FIRMWARE_VERSION) == FIRMWARE_SLOT
  {
    VersionSlots();
    SlotOfLabel(FIRMWARE_SLOT);
    hide SLOT_TIDS, SlotOf, HasLongText;
  }

  /** A packet with one accepted SET leaves every other slot alone. */
  lemma OneSetOnly(node: R.NodeState, e: R.Event, tid: u16, value: seq<byte>, endpoint: u16, i: nat)
    requires |node.held.blobs| == SLOTS && i < SLOTS && R.Actions.requires(e)
    requires R.Actions(e) == [B.Set(tid, value, endpoint)]
    ensures R.Next(node, e).held.blobs[i].value
         == if B.SetAllowed(tid, value) && SlotOf(tid) == i then value else node.held.blobs[i].value
  {
    hide R.Next, B.SetAllowed, SlotOf, R.Actions;
    R.OneEventWrites(node, e, i);
    var a := B.Set(tid, value, endpoint);
    assert [a][..0] == [];
    assert B.LastWrite([a], i) == B.Writes(a, i);
  }

  /** With such a value a full or extended poll of the root endpoint fails whenever what comes before it fits. */
  lemma LongVersionStopsReplies(blobs: seq<Blob>, level: nat, n: Identity, r: Status, used: nat)
    requires Sized(blobs) && HasLongText(blobs[FIRMWARE_SLOT].value)
    requires level >= 2 && Settled(level, FIXED_SCOPE, n, blobs, 0, r, used)
    ensures r == if |StreamBytes(BeforeFirmware(n, blobs, 0))| <= MAX_UDP_PAYLOAD then InvalidArg else Success
  {
    T.LocalScope();
    LongTextMeans(blobs[FIRMWARE_SLOT].value);
    hide HasLongText, Settled, FirmwareText, StreamBytes, BeforeFirmware;
    SettlesOnGreatestFit(level, FIXED_SCOPE, n, blobs, 0, r, used);
    if r == Success {
      assert FirmwareText(blobs[FIRMWARE_SLOT].value) == FirmwareText(blobs[3].value);
    }
  }

  /** A command that sets the firmware version is screened, and leaves its value there and nothing else. */
  lemma LongVersionIsStored(
    messageId: u16, o: Options, value: TlvValue, s: Setup, hmac: Hmac, packet: seq<byte>, node: R.NodeState)
    requires s.keysValid && o.mode == MODE_HMAC_SHA256 && Sized(node.held.blobs)
    requires HasLongText(value) && |value| <= BLOB_MAX_BYTES
    requires SG.Built(messageId, ManagerSegments(FIXED_SCOPE, s.tuid, 0), o,
                      StreamBytes([Tlv(TID_RT_FIRMWARE_VERSION, value)]), s.keys.managerLocal, hmac, Success, packet)
    ensures var p := Screen(packet, s, hmac);
            && p.Some?
            && var after := R.Next(node, EventOf(p.value, s, false)).held.blobs;
               && |after| == SLOTS
               && forall i :: 0 <= i < SLOTS ==>
                    after[i].value == if i == FIRMWARE_SLOT then value else node.held.blobs[i].value
  {
    LongVersionIsAllowed(value);
    FirmwareIsRootOnly(0);
    hide Path, Screen, SG.Built, StreamBytes, ManagerSegments, B.SetAllowed, R.Actions, R.Next, SlotOf;
    hide P.IsTidAllowedForEndpoint;
    SN.SetIsScreened(messageId, o, TID_RT_FIRMWARE_VERSION, value, 0, s, hmac, packet);
    var e := EventOf(Screen(packet, s, hmac).value, s, false);
    hide EventOf, HasLongText;
    forall i | 0 <= i < SLOTS
      ensures R.Next(node, e).held.blobs[i].value == if i == FIRMWARE_SLOT then value else node.held.blobs[i].value
    {
      OneSetOnly(node, e, TID_RT_FIRMWARE_VERSION, value, 0, i);
    }
  }

  // ---------------------------------------------------------------- a new node

  /** A parameter adds its header and at most `room` bytes to a payload. */
  lemma Grown(base: seq<Tlv>, e: u16, tid: u16, value: seq<byte>, default: seq<byte>, room: nat) returns (r: seq<Tlv>)
    requires |value| <= room && |default| <= room < WRAP16
    ensures r == base + Item(e, tid, value, default) && |StreamBytes(r)| <= |StreamBytes(base)| + 4 + room
  {
    hide P.IsTidAllowedForEndpoint, StreamBytes, TlvBytes;
    var item := Item(e, tid, value, default);
    r := base + item;
    StreamAppend(base, item);
    if item != [] {
      StreamSingle(item[0]);
      assert |TlvBytes(item[0])| == 4 + |item[0].value|;
    } else {
      assert r == base;
    }
  }

  /** The values a new node reports before its firmware version are short, its label and supported TIDs aside. */
  lemma ShortInitialValue(tid: u16, deviceLabel: seq<byte>, universe: u16)
    requires tid !in {TID_RT_DEVICE_LABEL, TID_RT_MODEL_NAME, TID_RT_SUPPORTED_TIDS}
    ensures |InitialValue(tid, deviceLabel, universe)| <= 12
  {
  }

  /** A store that agrees with a new node's on everything but the firmware version. */
  ghost predicate NewBut(blobs: seq<Blob>, deviceLabel: seq<byte>, universe: u16) {
    && Sized(blobs)
    && forall i :: 0 <= i < SLOTS && i != FIRMWARE_SLOT ==>
         blobs[i].value == InitialStore(deviceLabel, universe)[i].value
  }

  lemma NewValue(blobs: seq<Blob>, deviceLabel: seq<byte>, universe: u16, i: nat)
    requires NewBut(blobs, deviceLabel, universe) && i < SLOTS == |SLOT_TIDS| && i != FIRMWARE_SLOT
    ensures blobs[i].value == InitialValue(SLOT_TIDS[i], deviceLabel, universe)
    ensures SLOT_TIDS[i] !in {TID_RT_DEVICE_LABEL, TID_RT_MODEL_NAME, TID_RT_SUPPORTED_TIDS} ==> |blobs[i].value| <= 12
  {
    hide InitialStore, InitialValue, SLOT_TIDS;
    if SLOT_TIDS[i] !in {TID_RT_DEVICE_LABEL, TID_RT_MODEL_NAME, TID_RT_SUPPORTED_TIDS} {
      ShortInitialValue(SLOT_TIDS[i], deviceLabel, universe);
    }
    assert InitialStore(deviceLabel, universe)[i] == InitialBlob(SLOT_TIDS[i], deviceLabel, universe);
  }

  /** One more short parameter. */
  lemma GrownBy16(
    base: seq<Tlv>, e: u16, blobs: seq<Blob>, deviceLabel: seq<byte>, universe: u16, i: nat, tid: u16,
    default: seq<byte>)
    returns (r: seq<Tlv>)
    requires NewBut(blobs, deviceLabel, universe) && i < SLOTS == |SLOT_TIDS| && i != FIRMWARE_SLOT
    requires SLOT_TIDS[i] == tid
    requires tid !in {TID_RT_DEVICE_LABEL, TID_RT_MODEL_NAME, TID_RT_SUPPORTED_TIDS} && |default| <= 12
    ensures r == base + Item(e, tid, blobs[i].value, default) && |StreamBytes(r)| <= |StreamBytes(base)| + 16
  {
    hide SLOT_TIDS, InitialStore, InitialValue, StreamBytes, Item;
    NewValue(blobs, deviceLabel, universe, i);
    hide NewBut;
    r := Grown(base, e, tid, blobs[i].value, default, 12);
  }

  /** The configuration tier of a new node: fifteen short parameters and a label of at most 512 bytes. */
  lemma NewConfigFits(base: seq<Tlv>, blobs: seq<Blob>, e: u16, deviceLabel: seq<byte>, universe: u16)
    requires NewBut(blobs, deviceLabel, universe)
    ensures |StreamBytes(WithConfig(base, blobs, e))| <= |StreamBytes(base)| + 4 + BLOB_MAX_BYTES + 15 * 16
  {
    RootSlots();
    DataSlots();
    hide SLOT_TIDS, InitialStore, InitialValue, StreamBytes, Item, NewBut;
    var l, u := deviceLabel, universe;
    SizedOf(blobs, l, u);
    var r := Grown(base, e, TID_RT_DEVICE_LABEL, blobs[4].value, DEFAULT_DEVICE_LABEL, BLOB_MAX_BYTES);
    r := GrownBy16(r, e, blobs, l, u, 6, TID_RT_IDENTIFY, DEFAULT_IDENTIFY);
    r := GrownBy16(r, e, blobs, l, u, 7, TID_RT_STATUS, DEFAULT_STATUS);
    r := GrownBy16(r, e, blobs, l, u, 37, TID_RDM_PORT_CONFIG, DEFAULT_RDM_PORT_CONFIG);
    r := GrownBy16(r, e, blobs, l, u, 39, TID_RDM_FLOW_CONTROL, DEFAULT_RDM_FLOW_CONTROL);
    r := GrownBy16(r, e, blobs, l, u, 26, TID_EP_UNIVERSE, U16(DEFAULT_UNIVERSE));
    r := GrownBy16(r, e, blobs, l, u, 27, TID_EP_LABEL, DEFAULT_EP_LABEL);
    r := GrownBy16(r, e, blobs, l, u, 28, TID_EP_MULT_OVERRIDE, DEFAULT_MULT_OVERRIDE);
    r := GrownBy16(r, e, blobs, l, u, 30, TID_EP_DIRECTION, DEFAULT_DIRECTION);
    r := GrownBy16(r, e, blobs, l, u, 31, TID_EP_INPUT_PRIORITY, DEFAULT_INPUT_PRIORITY);
    r := GrownBy16(r, e, blobs, l, u, 32, TID_EP_STATUS, DEFAULT_STATUS);
    r := GrownBy16(r, e, blobs, l, u, 33, TID_EP_FAILOVER, DEFAULT_FAILOVER);
    r := GrownBy16(r, e, blobs, l, u, 34, TID_EP_DMX_TIMING, DEFAULT_DMX_TIMING);
    r := GrownBy16(r, e, blobs, l, u, 35, TID_EP_REFRESH_CAPABILITY, DEFAULT_REFRESH_CAPABILITY);
    r := GrownBy16(r, e, blobs, l, u, 36, TID_EP_PROTOCOL, DEFAULT_PROTOCOL);
    r := GrownBy16(r, e, blobs, l, u, 29, TID_EP_CAPABILITY, DEFAULT_CAPABILITY);
  }

  lemma SizedOf(blobs: seq<Blob>, deviceLabel: seq<byte>, universe: u16)
    requires NewBut(blobs, deviceLabel, universe)
    ensures Sized(blobs) && |DEFAULT_DEVICE_LABEL| == 12
  {
  }

  lemma NewHeartbeatFits(n: Identity, blobs: seq<Blob>, e: u16, deviceLabel: seq<byte>, universe: u16)
    requires NewBut(blobs, deviceLabel, universe)
    ensures |StreamBytes(WithHeartbeat(n, blobs, e))| <= 48
  {
    RootSlots();
    var r := [PollReplyTlv(n.tuid, n.mfg, n.variant, n.changeCount)];
    StreamSingle(r[0]);
    assert |StreamBytes(r)| == 16;
    hide SLOT_TIDS, InitialStore, InitialValue, StreamBytes, Item, NewBut;
    r := GrownBy16(r, e, blobs, deviceLabel, universe, 1, TID_RT_ENDPOINT_COUNT, DEFAULT_ENDPOINT_COUNT);
    r := GrownBy16(r, e, blobs, deviceLabel, universe, 5, TID_RT_MULT, DEFAULT_MULT);
  }

  lemma NewFullHeadFits(base: seq<Tlv>, blobs: seq<Blob>, e: u16, deviceLabel: seq<byte>, universe: u16)
    requires NewBut(blobs, deviceLabel, universe)
    ensures |StreamBytes(WithFullHead(base, blobs, e))| <= |StreamBytes(base)| + 4 + BLOB_MAX_BYTES + 16
  {
    SizedOf(blobs, deviceLabel, universe);
    hide StreamBytes, Item, NewBut;
    var r := base;
    if blobs[0].value != [] {
      r := Grown(r, e, TID_RT_SUPPORTED_TIDS, blobs[0].value, [], BLOB_MAX_BYTES);
    } else {
      assert r == base + [];
    }
    assert |DEFAULT_PROTOCOL_VERSION| <= 12 && |FirstByte(blobs[2].value)| <= 12;
    r := Grown(r, e, TID_RT_PROTOCOL_VERSION, FirstByte(blobs[2].value), DEFAULT_PROTOCOL_VERSION, 12);
  }

  /** Before its firmware version a new node always has room, whatever its label. */
  lemma NewNodeHasRoom(n: Identity, blobs: seq<Blob>, e: u16, deviceLabel: seq<byte>, universe: u16)
    requires NewBut(blobs, deviceLabel, universe)
    ensures |StreamBytes(BeforeFirmware(n, blobs, e))| <= MAX_UDP_PAYLOAD
  {
    SizedOf(blobs, deviceLabel, universe);
    NewHeartbeatFits(n, blobs, e, deviceLabel, universe);
    NewConfigFits(WithHeartbeat(n, blobs, e), blobs, e, deviceLabel, universe);
    NewFullHeadFits(WithConfig(WithHeartbeat(n, blobs, e), blobs, e), blobs, e, deviceLabel, universe);
    hide NewBut, StreamBytes, WithConfig, WithHeartbeat, WithFullHead;
  }

  /**
   One accepted command silences a new node: after a SET of the firmware version
   to such a value, of at most 512 bytes, every full and extended poll of its
   root endpoint goes unanswered.
   */
  lemma LongVersionSilencesNode(
    messageId: u16, o: Options, value: TlvValue, s: Setup, hmac: Hmac, packet: seq<byte>,
    deviceLabel: seq<byte>, universe: u16, level: nat, n: Identity, r: Status, used: nat)
    requires s.keysValid && o.mode == MODE_HMAC_SHA256 && HasLongText(value) && |value| <= BLOB_MAX_BYTES && level >= 2
    requires SG.Built(messageId, ManagerSegments(FIXED_SCOPE, s.tuid, 0), o,
                      StreamBytes([Tlv(TID_RT_FIRMWARE_VERSION, value)]), s.keys.managerLocal, hmac, Success, packet)
    ensures var p := Screen(packet, s, hmac);
            && p.Some?
            && var after := R.Next(R.Started(deviceLabel, universe), EventOf(p.value, s, false)).held.blobs;
               Sized(after) && (Settled(level, FIXED_SCOPE, n, after, 0, r, used) ==> r == InvalidArg)
  {
    hide SG.Built, Screen, StreamBytes, ManagerSegments, HasLongText, R.Next, InitialStore, Settled, BeforeFirmware;
    var node := R.Started(deviceLabel, universe);
    T.InitialStoreFits(deviceLabel, universe);
    LongVersionIsStored(messageId, o, value, s, hmac, packet, node);
    var after := R.Next(node, EventOf(Screen(packet, s, hmac).value, s, false)).held.blobs;
    assert NewBut(after, deviceLabel, universe);
    if Settled(level, FIXED_SCOPE, n, after, 0, r, used) {
      LongVersionStopsReplies(after, level, n, r, used);
      NewNodeHasRoom(n, after, 0, deviceLabel, universe);
    }
  }
}
