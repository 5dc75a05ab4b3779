/**
 Which parameters a poll reply reports: the exact TIDs of every level and
 endpoint, in order, and how they cover the profile.
 */
module ReplyTiers {
  import opened Bytes
  import opened Tids
  import opened TlvStream
  import opened NodeStore
  import opened NodeDefaults
  import opened PollReply
  import P = NodeProfile

  function TidsOf(ts: seq<Tlv>): (r: seq<u16>)
    ensures |r| == |ts|
  {
    seq(|ts|, i requires 0 <= i < |ts| => ts[i].tid)
  }

  /** What the first reply level reports of the root endpoint; a data endpoint has only the poll reply itself. */
  const ROOT_HEARTBEAT: seq<u16> := [TID_POLL_REPLY, TID_RT_ENDPOINT_COUNT, TID_RT_MULT]
  const ROOT_CONFIG: seq<u16> := [TID_RT_DEVICE_LABEL, TID_RT_IDENTIFY, TID_RT_STATUS]
  const DATA_CONFIG: seq<u16> := [
    TID_RDM_PORT_CONFIG, TID_RDM_FLOW_CONTROL, TID_EP_UNIVERSE, TID_EP_LABEL, TID_EP_MULT_OVERRIDE, TID_EP_DIRECTION,
    TID_EP_INPUT_PRIORITY, TID_EP_STATUS, TID_EP_FAILOVER, TID_EP_DMX_TIMING, TID_EP_REFRESH_CAPABILITY,
    TID_EP_PROTOCOL, TID_EP_CAPABILITY]
  const ROOT_FULL: seq<u16> := [
    TID_RT_PROTOCOL_VERSION, TID_RT_FIRMWARE_VERSION, TID_RT_ROLE_CAPABILITY, TID_RT_MODEL_NAME]

  function RootFull(listed: bool): seq<u16> {
    (if listed then [TID_RT_SUPPORTED_TIDS] else []) + ROOT_FULL
  }

  /** The TIDs of a reply, in order; `listed` says that the node holds a list of supported TIDs. */
  function TierTids(level: nat, e: u16, listed: bool): seq<u16> {
    var heartbeat := if e == 0 then ROOT_HEARTBEAT else [TID_POLL_REPLY];
    if level < 1 then heartbeat
    else
      var config := heartbeat + if e == 0 then ROOT_CONFIG else DATA_CONFIG;
      if level < 2 then config
      else
        var full := config + if e == 0 then RootFull(listed) else [TID_EP_CAPABILITY];
        if level < 3 then full else full + if e == 0 then [TID_DG_SECURITY_EVENT] else []
  }

  // --------------------------------------------------------------- the profile

  /** A TID of the profile belongs to the endpoint its entry names. */
  lemma EntryAllowed(k: nat, e: u16)
    requires k < |P.TABLE|
    ensures P.IsTidAllowedForEndpoint(P.TABLE[k].tid, e) <==> (P.TABLE[k].root <==> e == 0)
  {
    EntrySlot(k);
    var i := P.IndexOf(P.TABLE, P.TABLE[k].tid);
    EntrySlot(i);
    hide SLOT_TIDS, SlotOf, P.TABLE, ENTRY_SLOTS, P.IndexOf;
    SlotOfLabel(ENTRY_SLOTS[i]);
    SlotOfLabel(ENTRY_SLOTS[k]);
  }

  lemma RootEntries()
    ensures |P.TABLE| == 24
    ensures P.TABLE[0] == P.Entry(TID_RT_ENDPOINT_COUNT, true, false, false, true, P.TABLE[0].persistent)
    ensures P.TABLE[1] == P.Entry(TID_RT_PROTOCOL_VERSION, true, false, false, true, P.TABLE[1].persistent)
    ensures P.TABLE[2] == P.Entry(TID_RT_FIRMWARE_VERSION, true, false, false, true, P.TABLE[2].persistent)
    ensures P.TABLE[3] == P.Entry(TID_RT_DEVICE_LABEL, true, false, false, true, P.TABLE[3].persistent)
    ensures P.TABLE[4] == P.Entry(TID_RT_MULT, true, false, false, true, P.TABLE[4].persistent)
  {
  }

  lemma MoreRootEntries()
    ensures |P.TABLE| == 24
    ensures P.TABLE[5] == P.Entry(TID_RT_IDENTIFY, true, false, false, true, P.TABLE[5].persistent)
    ensures P.TABLE[6] == P.Entry(TID_RT_STATUS, true, false, false, true, P.TABLE[6].persistent)
    ensures P.TABLE[7] == P.Entry(TID_RT_ROLE_CAPABILITY, true, false, false, true, P.TABLE[7].persistent)
    ensures P.TABLE[8] == P.Entry(TID_RT_MODEL_NAME, true, false, false, true, P.TABLE[8].persistent)
    ensures P.TABLE[9] == P.Entry(TID_DG_SECURITY_EVENT, true, false, false, true, P.TABLE[9].persistent)
  {
  }

  lemma DataEntries()
    ensures |P.TABLE| == 24
    ensures P.TABLE[10] == P.Entry(TID_RDM_PORT_CONFIG, false, true, false, true, P.TABLE[10].persistent)
    ensures P.TABLE[11] == P.Entry(TID_RDM_FLOW_CONTROL, false, true, false, true, P.TABLE[11].persistent)
    ensures P.TABLE[12] == P.Entry(TID_EP_UNIVERSE, false, true, false, true, P.TABLE[12].persistent)
    ensures P.TABLE[13] == P.Entry(TID_EP_LABEL, false, true, false, true, P.TABLE[13].persistent)
    ensures P.TABLE[14] == P.Entry(TID_EP_MULT_OVERRIDE, false, true, false, true, P.TABLE[14].persistent)
    ensures P.TABLE[15] == P.Entry(TID_EP_CAPABILITY, false, true, false, true, P.TABLE[15].persistent)
  {
  }

  lemma MoreDataEntries()
    ensures |P.TABLE| == 24
    ensures P.TABLE[16] == P.Entry(TID_EP_DIRECTION, false, true, false, true, P.TABLE[16].persistent)
    ensures P.TABLE[17] == P.Entry(TID_EP_INPUT_PRIORITY, false, true, false, true, P.TABLE[17].persistent)
    ensures P.TABLE[18] == P.Entry(TID_EP_STATUS, false, true, false, true, P.TABLE[18].persistent)
    ensures P.TABLE[19] == P.Entry(TID_EP_FAILOVER, false, true, false, true, P.TABLE[19].persistent)
    ensures P.TABLE[20] == P.Entry(TID_EP_DMX_TIMING, false, true, false, true, P.TABLE[20].persistent)
    ensures P.TABLE[21] == P.Entry(TID_EP_REFRESH_CAPABILITY, false, true, false, true, P.TABLE[21].persistent)
    ensures P.TABLE[22] == P.Entry(TID_EP_PROTOCOL, false, true, false, true, P.TABLE[22].persistent)
  {
  }

  lemma RootTids(e: u16)
    ensures P.IsTidAllowedForEndpoint(TID_RT_ENDPOINT_COUNT, e) <==> e == 0
    ensures P.IsTidAllowedForEndpoint(TID_RT_PROTOCOL_VERSION, e) <==> e == 0
    ensures P.IsTidAllowedForEndpoint(TID_RT_FIRMWARE_VERSION, e) <==> e == 0
    ensures P.IsTidAllowedForEndpoint(TID_RT_DEVICE_LABEL, e) <==> e == 0
    ensures P.IsTidAllowedForEndpoint(TID_RT_MULT, e) <==> e == 0
    ensures P.IsTidAllowedForEndpoint(TID_RT_IDENTIFY, e) <==> e == 0
    ensures P.IsTidAllowedForEndpoint(TID_RT_STATUS, e) <==> e == 0
    ensures P.IsTidAllowedForEndpoint(TID_RT_ROLE_CAPABILITY, e) <==> e == 0
    ensures P.IsTidAllowedForEndpoint(TID_RT_MODEL_NAME, e) <==> e == 0
    ensures P.IsTidAllowedForEndpoint(TID_DG_SECURITY_EVENT, e) <==> e == 0
    ensures P.IsTidAllowedForEndpoint(TID_RT_SUPPORTED_TIDS, e) <==> e == 0
  {
    RootEntries();
    MoreRootEntries();
    hide P.TABLE;
    forall k | 0 <= k < 10
      ensures P.IsTidAllowedForEndpoint(P.TABLE[k].tid, e) <==> (P.TABLE[k].root <==> e == 0)
    {
      EntryAllowed(k, e);
    }
    hide P.IndexOf;
  }

  lemma DataTids(e: u16)
    ensures P.IsTidAllowedForEndpoint(TID_RDM_PORT_CONFIG, e) <==> e != 0
    ensures P.IsTidAllowedForEndpoint(TID_RDM_FLOW_CONTROL, e) <==> e != 0
    ensures P.IsTidAllowedForEndpoint(TID_EP_UNIVERSE, e) <==> e != 0
    ensures P.IsTidAllowedForEndpoint(TID_EP_LABEL, e) <==> e != 0
    ensures P.IsTidAllowedForEndpoint(TID_EP_MULT_OVERRIDE, e) <==> e != 0
    ensures P.IsTidAllowedForEndpoint(TID_EP_CAPABILITY, e) <==> e != 0
    ensures P.IsTidAllowedForEndpoint(TID_EP_DIRECTION, e) <==> e != 0
    ensures P.IsTidAllowedForEndpoint(TID_EP_INPUT_PRIORITY, e) <==> e != 0
    ensures P.IsTidAllowedForEndpoint(TID_EP_STATUS, e) <==> e != 0
    ensures P.IsTidAllowedForEndpoint(TID_EP_FAILOVER, e) <==> e != 0
    ensures P.IsTidAllowedForEndpoint(TID_EP_DMX_TIMING, e) <==> e != 0
    ensures P.IsTidAllowedForEndpoint(TID_EP_REFRESH_CAPABILITY, e) <==> e != 0
    ensures P.IsTidAllowedForEndpoint(TID_EP_PROTOCOL, e) <==> e != 0
  {
    DataEntries();
    MoreDataEntries();
    hide P.TABLE, P.IsTidAllowedForEndpoint;
    forall k | 10 <= k < 23
      ensures P.IsTidAllowedForEndpoint(P.TABLE[k].tid, e) <==> (P.TABLE[k].root <==> e == 0)
    {
      EntryAllowed(k, e);
    }
  }

  // ---------------------------------------------------------------- the tiers

  /** `r` is `base` and blocks with the first `k` of the TIDs `t`. */
  ghost predicate Reaches(r: seq<Tlv>, base: seq<Tlv>, t: seq<u16>, k: nat) {
    base <= r && k <= |t| && TidsOf(r[|base|..]) == t[..k]
  }

  /** One more parameter that belongs on the endpoint. */
  lemma Adds(r0: seq<Tlv>, base: seq<Tlv>, t: seq<u16>, k: nat, e: u16, tid: u16, value: seq<byte>, default: seq<byte>)
    returns (r: seq<Tlv>)
    requires Reaches(r0, base, t, k) && |value| < WRAP16 && |default| < WRAP16 && P.IsTidAllowedForEndpoint(tid, e)
    requires k < |t| && t[k] == tid
    ensures r == r0 + Item(e, tid, value, default) && Reaches(r, base, t, k + 1)
  {
    hide P.IsTidAllowedForEndpoint;
    r := r0 + Item(e, tid, value, default);
    assert r[|base|..] == r0[|base|..] + Item(e, tid, value, default);
  }

  /** One that does not. */
  lemma Skips(r0: seq<Tlv>, base: seq<Tlv>, t: seq<u16>, k: nat, e: u16, tid: u16, value: seq<byte>, default: seq<byte>)
    returns (r: seq<Tlv>)
    requires Reaches(r0, base, t, k) && |value| < WRAP16 && |default| < WRAP16 && !P.IsTidAllowedForEndpoint(tid, e)
    ensures r == r0 + Item(e, tid, value, default) && Reaches(r, base, t, k)
  {
    hide P.IsTidAllowedForEndpoint;
    r := r0 + Item(e, tid, value, default);
    assert r == r0;
  }

  lemma NothingYet(base: seq<Tlv>, t: seq<u16>)
    ensures Reaches(base, base, t, 0)
  {
  }

  lemma RootConfigList()
    ensures |ROOT_CONFIG| == 3
    ensures ROOT_CONFIG[0] == TID_RT_DEVICE_LABEL
    ensures ROOT_CONFIG[1] == TID_RT_IDENTIFY
    ensures ROOT_CONFIG[2] == TID_RT_STATUS
  {
  }

  lemma DataConfigList()
    ensures |DATA_CONFIG| == 13
    ensures DATA_CONFIG[0] == TID_RDM_PORT_CONFIG
    ensures DATA_CONFIG[1] == TID_RDM_FLOW_CONTROL
    ensures DATA_CONFIG[2] == TID_EP_UNIVERSE
    ensures DATA_CONFIG[3] == TID_EP_LABEL
    ensures DATA_CONFIG[4] == TID_EP_MULT_OVERRIDE
    ensures DATA_CONFIG[5] == TID_EP_DIRECTION
    ensures DATA_CONFIG[6] == TID_EP_INPUT_PRIORITY
    ensures DATA_CONFIG[7] == TID_EP_STATUS
    ensures DATA_CONFIG[8] == TID_EP_FAILOVER
    ensures DATA_CONFIG[9] == TID_EP_DMX_TIMING
    ensures DATA_CONFIG[10] == TID_EP_REFRESH_CAPABILITY
    ensures DATA_CONFIG[11] == TID_EP_PROTOCOL
    ensures DATA_CONFIG[12] == TID_EP_CAPABILITY
  {
  }

  lemma RootFullList(listed: bool)
    ensures |RootFull(listed)| == if listed then 5 else 4
    ensures listed ==> RootFull(listed)[0] == TID_RT_SUPPORTED_TIDS
    ensures var k := if listed then 1 else 0;
            && RootFull(listed)[k] == TID_RT_PROTOCOL_VERSION && RootFull(listed)[k + 1] == TID_RT_FIRMWARE_VERSION
            && RootFull(listed)[k + 2] == TID_RT_ROLE_CAPABILITY && RootFull(listed)[k + 3] == TID_RT_MODEL_NAME
  {
  }

  lemma HeartbeatTids(n: Identity, s: seq<Blob>, e: u16)
    requires Sized(s)
    ensures TidsOf(WithHeartbeat(n, s, e)) == if e == 0 then ROOT_HEARTBEAT else [TID_POLL_REPLY]
  {
    RootTids(e);
    var h := [PollReplyTlv(n.tuid, n.mfg, n.variant, n.changeCount)];
    assert Reaches(h, [], ROOT_HEARTBEAT, 1);
    assert ROOT_HEARTBEAT[1] == TID_RT_ENDPOINT_COUNT && ROOT_HEARTBEAT[2] == TID_RT_MULT && |ROOT_HEARTBEAT| == 3;
    assert ROOT_HEARTBEAT[..1] == [TID_POLL_REPLY] && ROOT_HEARTBEAT[..3] == ROOT_HEARTBEAT;
    hide P.IsTidAllowedForEndpoint, Item, PollReplyTlv, ROOT_HEARTBEAT;
    var r := h;
    if e == 0 {
      r := Adds(r, [], ROOT_HEARTBEAT, 1, e, TID_RT_ENDPOINT_COUNT, s[1].value, DEFAULT_ENDPOINT_COUNT);
      r := Adds(r, [], ROOT_HEARTBEAT, 2, e, TID_RT_MULT, s[5].value, DEFAULT_MULT);
    } else {
      r := Skips(r, [], ROOT_HEARTBEAT, 1, e, TID_RT_ENDPOINT_COUNT, s[1].value, DEFAULT_ENDPOINT_COUNT);
      r := Skips(r, [], ROOT_HEARTBEAT, 1, e, TID_RT_MULT, s[5].value, DEFAULT_MULT);
    }
    assert r[0..] == r;
  }

  lemma RootConfigTids(base: seq<Tlv>, s: seq<Blob>, e: u16)
    requires Sized(s) && e == 0
    ensures Reaches(WithConfig(base, s, e), base, ROOT_CONFIG, 3)
  {
    RootTids(e);
    DataTids(e);
    RootConfigList();
    NothingYet(base, ROOT_CONFIG);
    hide P.IsTidAllowedForEndpoint, Item, Reaches, ROOT_CONFIG;
    var r: seq<Tlv> := base;
    r := Adds(r, base, ROOT_CONFIG, 0, e, TID_RT_DEVICE_LABEL, s[4].value, DEFAULT_DEVICE_LABEL);
    r := Adds(r, base, ROOT_CONFIG, 1, e, TID_RT_IDENTIFY, s[6].value, DEFAULT_IDENTIFY);
    r := Adds(r, base, ROOT_CONFIG, 2, e, TID_RT_STATUS, s[7].value, DEFAULT_STATUS);
    r := Skips(r, base, ROOT_CONFIG, 3, e, TID_RDM_PORT_CONFIG, s[37].value, DEFAULT_RDM_PORT_CONFIG);
    r := Skips(r, base, ROOT_CONFIG, 3, e, TID_RDM_FLOW_CONTROL, s[39].value, DEFAULT_RDM_FLOW_CONTROL);
    r := Skips(r, base, ROOT_CONFIG, 3, e, TID_EP_UNIVERSE, s[26].value, U16(DEFAULT_UNIVERSE));
    r := Skips(r, base, ROOT_CONFIG, 3, e, TID_EP_LABEL, s[27].value, DEFAULT_EP_LABEL);
    r := Skips(r, base, ROOT_CONFIG, 3, e, TID_EP_MULT_OVERRIDE, s[28].value, DEFAULT_MULT_OVERRIDE);
    r := Skips(r, base, ROOT_CONFIG, 3, e, TID_EP_DIRECTION, s[30].value, DEFAULT_DIRECTION);
    r := Skips(r, base, ROOT_CONFIG, 3, e, TID_EP_INPUT_PRIORITY, s[31].value, DEFAULT_INPUT_PRIORITY);
    r := Skips(r, base, ROOT_CONFIG, 3, e, TID_EP_STATUS, s[32].value, DEFAULT_STATUS);
    r := Skips(r, base, ROOT_CONFIG, 3, e, TID_EP_FAILOVER, s[33].value, DEFAULT_FAILOVER);
    r := Skips(r, base, ROOT_CONFIG, 3, e, TID_EP_DMX_TIMING, s[34].value, DEFAULT_DMX_TIMING);
    r := Skips(r, base, ROOT_CONFIG, 3, e, TID_EP_REFRESH_CAPABILITY, s[35].value, DEFAULT_REFRESH_CAPABILITY);
    r := Skips(r, base, ROOT_CONFIG, 3, e, TID_EP_PROTOCOL, s[36].value, DEFAULT_PROTOCOL);
    r := Skips(r, base, ROOT_CONFIG, 3, e, TID_EP_CAPABILITY, s[29].value, DEFAULT_CAPABILITY);
  }

  lemma DataConfigTids(base: seq<Tlv>, s: seq<Blob>, e: u16)
    requires Sized(s) && e != 0
    ensures Reaches(WithConfig(base, s, e), base, DATA_CONFIG, 13)
  {
    RootTids(e);
    DataTids(e);
    DataConfigList();
    NothingYet(base, DATA_CONFIG);
    hide P.IsTidAllowedForEndpoint, Item, Reaches, DATA_CONFIG;
    var r: seq<Tlv> := base;
    r := Skips(r, base, DATA_CONFIG, 0, e, TID_RT_DEVICE_LABEL, s[4].value, DEFAULT_DEVICE_LABEL);
    r := Skips(r, base, DATA_CONFIG, 0, e, TID_RT_IDENTIFY, s[6].value, DEFAULT_IDENTIFY);
    r := Skips(r, base, DATA_CONFIG, 0, e, TID_RT_STATUS, s[7].value, DEFAULT_STATUS);
    r := Adds(r, base, DATA_CONFIG, 0, e, TID_RDM_PORT_CONFIG, s[37].value, DEFAULT_RDM_PORT_CONFIG);
    r := Adds(r, base, DATA_CONFIG, 1, e, TID_RDM_FLOW_CONTROL, s[39].value, DEFAULT_RDM_FLOW_CONTROL);
    r := Adds(r, base, DATA_CONFIG, 2, e, TID_EP_UNIVERSE, s[26].value, U16(DEFAULT_UNIVERSE));
    r := Adds(r, base, DATA_CONFIG, 3, e, TID_EP_LABEL, s[27].value, DEFAULT_EP_LABEL);
    r := Adds(r, base, DATA_CONFIG, 4, e, TID_EP_MULT_OVERRIDE, s[28].value, DEFAULT_MULT_OVERRIDE);
    r := Adds(r, base, DATA_CONFIG, 5, e, TID_EP_DIRECTION, s[30].value, DEFAULT_DIRECTION);
    r := Adds(r, base, DATA_CONFIG, 6, e, TID_EP_INPUT_PRIORITY, s[31].value, DEFAULT_INPUT_PRIORITY);
    r := Adds(r, base, DATA_CONFIG, 7, e, TID_EP_STATUS, s[32].value, DEFAULT_STATUS);
    r := Adds(r, base, DATA_CONFIG, 8, e, TID_EP_FAILOVER, s[33].value, DEFAULT_FAILOVER);
    r := Adds(r, base, DATA_CONFIG, 9, e, TID_EP_DMX_TIMING, s[34].value, DEFAULT_DMX_TIMING);
    r := Adds(r, base, DATA_CONFIG, 10, e, TID_EP_REFRESH_CAPABILITY, s[35].value, DEFAULT_REFRESH_CAPABILITY);
    r := Adds(r, base, DATA_CONFIG, 11, e, TID_EP_PROTOCOL, s[36].value, DEFAULT_PROTOCOL);
    r := Adds(r, base, DATA_CONFIG, 12, e, TID_EP_CAPABILITY, s[29].value, DEFAULT_CAPABILITY);
  }

  /** The list of supported TIDs comes first, if it is held. */
  lemma ListTids(base: seq<Tlv>, s: seq<Blob>, e: u16, list: seq<u16>) returns (r: seq<Tlv>, k: nat)
    requires Sized(s) && e == 0 && list == RootFull(s[0].value != [])
    ensures r == base + (if s[0].value != [] then Item(e, TID_RT_SUPPORTED_TIDS, s[0].value, []) else [])
    ensures k == (if s[0].value != [] then 1 else 0) && Reaches(r, base, list, k)
  {
    RootTids(e);
    RootFullList(s[0].value != []);
    NothingYet(base, list);
    assert base == base + [];
    hide P.IsTidAllowedForEndpoint, Item, Reaches, RootFull, TidsOf;
    r, k := base, 0;
    if s[0].value != [] {
      r := Adds(r, base, list, k, e, TID_RT_SUPPORTED_TIDS, s[0].value, []);
      k := 1;
    }
  }

  lemma ProtocolIsNext(listed: bool, k: nat)
    requires k == if listed then 1 else 0
    ensures k < |RootFull(listed)| && RootFull(listed)[k] == TID_RT_PROTOCOL_VERSION
  {
    RootFullList(listed);
  }

  lemma RootHeadTids(base: seq<Tlv>, s: seq<Blob>, e: u16, list: seq<u16>)
    requires Sized(s) && e == 0 && list == RootFull(s[0].value != [])
    ensures Reaches(WithFullHead(base, s, e), base, list, if s[0].value != [] then 2 else 1)
  {
    hide P.IsTidAllowedForEndpoint, Item, Reaches, RootFull, TidsOf;
    var r, k := ListTids(base, s, e, list);
    ProtocolIsNext(s[0].value != [], k);
    RootTids(e);
    r := Adds(r, base, list, k, e, TID_RT_PROTOCOL_VERSION, FirstByte(s[2].value), DEFAULT_PROTOCOL_VERSION);
  }

  lemma RootTailTids(head: seq<Tlv>, base: seq<Tlv>, s: seq<Blob>, e: u16, list: seq<u16>, k: nat)
    requires Sized(s) && e == 0 && k + 3 == |list| && Reaches(head, base, list, k)
    requires list[k] == TID_RT_FIRMWARE_VERSION && list[k + 1] == TID_RT_ROLE_CAPABILITY
    requires list[k + 2] == TID_RT_MODEL_NAME
    ensures Reaches(WithFullTail(head, s, e), base, list, |list|)
  {
    RootTids(e);
    DataTids(e);
    FirmwareShorter(s[3].value);
    hide P.IsTidAllowedForEndpoint, Item, Reaches, FirmwareValue;
    var r := head;
    r := Adds(r, base, list, k, e, TID_RT_FIRMWARE_VERSION, FirmwareValue(s[3].value), []);
    r := Adds(r, base, list, k + 1, e, TID_RT_ROLE_CAPABILITY, s[8].value, DEFAULT_ROLE_CAPABILITY);
    r := Adds(r, base, list, k + 2, e, TID_RT_MODEL_NAME, s[10].value, DEFAULT_MODEL_NAME);
    r := Skips(r, base, list, k + 3, e, TID_EP_CAPABILITY, s[29].value, DEFAULT_CAPABILITY);
  }

  lemma RootFullTids(base: seq<Tlv>, s: seq<Blob>, e: u16)
    requires Sized(s) && e == 0
    ensures var list := RootFull(s[0].value != []);
            Reaches(WithFullTail(WithFullHead(base, s, e), s, e), base, list, |list|)
  {
    var listed := s[0].value != [];
    RootFullList(listed);
    RootHeadTids(base, s, e, RootFull(listed));
    hide WithFullHead, WithFullTail, Reaches, RootFull;
    RootTailTids(WithFullHead(base, s, e), base, s, e, RootFull(listed), if listed then 2 else 1);
  }

  lemma DataFullTids(base: seq<Tlv>, s: seq<Blob>, e: u16)
    requires Sized(s) && e != 0
    ensures Reaches(WithFullTail(WithFullHead(base, s, e), s, e), base, [TID_EP_CAPABILITY], 1)
  {
    RootTids(e);
    DataTids(e);
    var list := [TID_EP_CAPABILITY];
    NothingYet(base, list);
    FirmwareShorter(s[3].value);
    hide P.IsTidAllowedForEndpoint, Item, Reaches, FirmwareValue;
    var r: seq<Tlv> := base;
    if s[0].value != [] {
      r := Skips(r, base, list, 0, e, TID_RT_SUPPORTED_TIDS, s[0].value, []);
    } else {
      assert r == base + [];
    }
    r := Skips(r, base, list, 0, e, TID_RT_PROTOCOL_VERSION, FirstByte(s[2].value), DEFAULT_PROTOCOL_VERSION);
    r := Skips(r, base, list, 0, e, TID_RT_FIRMWARE_VERSION, FirmwareValue(s[3].value), []);
    r := Skips(r, base, list, 0, e, TID_RT_ROLE_CAPABILITY, s[8].value, DEFAULT_ROLE_CAPABILITY);
    r := Skips(r, base, list, 0, e, TID_RT_MODEL_NAME, s[10].value, DEFAULT_MODEL_NAME);
    r := Adds(r, base, list, 0, e, TID_EP_CAPABILITY, s[29].value, DEFAULT_CAPABILITY);
  }

  lemma ExtendedTids(base: seq<Tlv>, s: seq<Blob>, e: u16)
    requires Sized(s)
    ensures TidsOf(WithExtended(base, s, e)) == TidsOf(base) + if e == 0 then [TID_DG_SECURITY_EVENT] else []
  {
    RootTids(e);
    var list := [TID_DG_SECURITY_EVENT];
    NothingYet(base, list);
    hide P.IsTidAllowedForEndpoint, Item, Reaches, TidsOf;
    if e == 0 {
      var r := Adds(base, base, list, 0, e, TID_DG_SECURITY_EVENT, s[24].value, DEFAULT_SECURITY_EVENT);
      ReachedTids(r, base, list, 1);
    } else {
      var r := Skips(base, base, list, 0, e, TID_DG_SECURITY_EVENT, s[24].value, DEFAULT_SECURITY_EVENT);
      ReachedTids(r, base, list, 0);
    }
  }

  lemma ConfigTids(base: seq<Tlv>, s: seq<Blob>, e: u16)
    requires Sized(s)
    ensures TidsOf(WithConfig(base, s, e)) == TidsOf(base) + if e == 0 then ROOT_CONFIG else DATA_CONFIG
  {
    hide WithConfig;
    if e == 0 {
      RootConfigList();
      RootConfigTids(base, s, e);
      ReachedTids(WithConfig(base, s, e), base, ROOT_CONFIG, 3);
    } else {
      DataConfigList();
      DataConfigTids(base, s, e);
      ReachedTids(WithConfig(base, s, e), base, DATA_CONFIG, 13);
    }
  }

  lemma FullTids(base: seq<Tlv>, s: seq<Blob>, e: u16)
    requires Sized(s)
    ensures TidsOf(WithFullTail(WithFullHead(base, s, e), s, e))
         == TidsOf(base) + if e == 0 then RootFull(s[0].value != []) else [TID_EP_CAPABILITY]
  {
    hide WithFullHead, WithFullTail;
    if e == 0 {
      RootFullList(s[0].value != []);
      RootFullTids(base, s, e);
      var list := RootFull(s[0].value != []);
      ReachedTids(WithFullTail(WithFullHead(base, s, e), s, e), base, list, |list|);
    } else {
      DataFullTids(base, s, e);
      ReachedTids(WithFullTail(WithFullHead(base, s, e), s, e), base, [TID_EP_CAPABILITY], 1);
    }
  }

  lemma ReachedTids(r: seq<Tlv>, base: seq<Tlv>, t: seq<u16>, k: nat)
    requires Reaches(r, base, t, k)
    ensures TidsOf(r) == TidsOf(base) + t[..k]
    ensures k == |t| ==> TidsOf(r) == TidsOf(base) + t
  {
    assert r == base + r[|base|..];
  }

  /** At every level and endpoint a reply reports exactly these parameters, in this order. */
  lemma TiersAreExact(level: nat, n: Identity, s: seq<Blob>, e: u16)
    requires Sized(s)
    ensures TidsOf(ReplyTlvs(level, n, s, e)) == TierTids(level, e, s[0].value != [])
  {
    var h := WithHeartbeat(n, s, e);
    var c := WithConfig(h, s, e);
    var f := WithFullTail(WithFullHead(c, s, e), s, e);
    HeartbeatTids(n, s, e);
    ConfigTids(h, s, e);
    FullTids(c, s, e);
    ExtendedTids(f, s, e);
    hide WithHeartbeat, WithConfig, WithFullHead, WithFullTail, WithExtended, TidsOf, Reaches, Sized;
    hide ROOT_HEARTBEAT, ROOT_CONFIG, DATA_CONFIG, ROOT_FULL, RootFull;
    assert BeforeFirmware(n, s, e) == WithFullHead(c, s, e);
    hide BeforeFirmware;
    if level < 1 {
      assert ReplyTlvs(level, n, s, e) == h;
    } else if level < 2 {
      assert ReplyTlvs(level, n, s, e) == c;
    } else if level < 3 {
      assert ReplyTlvs(level, n, s, e) == f;
    } else {
      assert ReplyTlvs(level, n, s, e) == WithExtended(f, s, e);
    }
  }

  // ----------------------------------------------------------------- coverage

  predicate NoneTwice(t: seq<u16>) {
    forall i, j :: 0 <= i < j < |t| ==> t[i] != t[j]
  }

  lemma RootList(listed: bool, e: u16) returns (t: seq<u16>)
    requires e == 0
    ensures t == TierTids(3, e, listed)
    ensures t == if listed then [
                   TID_POLL_REPLY, TID_RT_ENDPOINT_COUNT, TID_RT_MULT, TID_RT_DEVICE_LABEL, TID_RT_IDENTIFY,
                   TID_RT_STATUS, TID_RT_SUPPORTED_TIDS, TID_RT_PROTOCOL_VERSION, TID_RT_FIRMWARE_VERSION,
                   TID_RT_ROLE_CAPABILITY, TID_RT_MODEL_NAME, TID_DG_SECURITY_EVENT]
                 else [
                   TID_POLL_REPLY, TID_RT_ENDPOINT_COUNT, TID_RT_MULT, TID_RT_DEVICE_LABEL, TID_RT_IDENTIFY,
                   TID_RT_STATUS, TID_RT_PROTOCOL_VERSION, TID_RT_FIRMWARE_VERSION,
                   TID_RT_ROLE_CAPABILITY, TID_RT_MODEL_NAME, TID_DG_SECURITY_EVENT]
  {
    t := TierTids(3, e, listed);
  }

  /**
   An extended reply of the root endpoint reports every parameter of the profile's
   root half exactly once, and the supported TIDs exactly if the node holds the list.
   */
  lemma RootIsCovered(listed: bool, e: u16, k: nat)
    requires e == 0 && k < |P.TABLE| && P.TABLE[k].root
    ensures NoneTwice(TierTids(3, e, listed)) && P.TABLE[k].tid in TierTids(3, e, listed)
    ensures TID_RT_SUPPORTED_TIDS in TierTids(3, e, listed) <==> listed
  {
    RootIsDistinct(listed, e);
    hide NoneTwice;
    var t := RootList(listed, e);
    assert listed ==> t[6] == TID_RT_SUPPORTED_TIDS;
    hide TierTids;
    RootPlace(t, listed, k);
  }

  lemma RootIsDistinct(listed: bool, e: u16)
    requires e == 0
    ensures NoneTwice(TierTids(3, e, listed))
  {
    var t := RootList(listed, e);
    hide TierTids;
  }

  lemma RootPlace(t: seq<u16>, listed: bool, k: nat)
    requires k < |P.TABLE| && P.TABLE[k].root && |t| == (if listed then 12 else 11)
    requires t[1] == TID_RT_ENDPOINT_COUNT && t[2] == TID_RT_MULT && t[3] == TID_RT_DEVICE_LABEL
    requires t[4] == TID_RT_IDENTIFY && t[5] == TID_RT_STATUS
    requires var n := if listed then 7 else 6;
             && t[n] == TID_RT_PROTOCOL_VERSION && t[n + 1] == TID_RT_FIRMWARE_VERSION
             && t[n + 2] == TID_RT_ROLE_CAPABILITY && t[n + 3] == TID_RT_MODEL_NAME && t[n + 4] == TID_DG_SECURITY_EVENT
    ensures P.TABLE[k].tid in t
  {
    RootEntries();
    MoreRootEntries();
    EntrySlot(k);
    assert k < 10;
    hide P.TABLE, SLOT_TIDS, ENTRY_SLOTS;
    var n := if listed then 7 else 6;
    var i := if k == 0 then 1 else if k == 4 then 2 else if k == 3 then 3 else if k == 5 then 4 else if k == 6 then 5
             else if k == 1 then n else if k == 2 then n + 1 else n + k - 5;
    assert t[i] == P.TABLE[k].tid;
  }

  /**
   A configuration reply of a data endpoint reports every parameter of the data half
   exactly once, except the level foldback, which no reply reports; the full reply
   repeats the capability.
   */
  lemma DataIsCovered(listed: bool, e: u16, k: nat, level: nat)
    requires e != 0 && k < |P.TABLE| && P.TABLE[k].data
    ensures NoneTwice(TierTids(1, e, listed))
    ensures P.TABLE[k].tid in TierTids(1, e, listed) <==> P.TABLE[k].tid != TID_DG_LEVEL_FOLDBACK
    ensures TID_DG_LEVEL_FOLDBACK !in TierTids(level, e, listed)
    ensures level >= 2 ==> TierTids(level, e, listed) == TierTids(1, e, listed) + [TID_EP_CAPABILITY]
  {
    DataIsDistinct(listed, e);
    hide NoneTwice;
    DataConfigList();
    var t := TierTids(1, e, listed);
    assert t == [TID_POLL_REPLY] + DATA_CONFIG;
    assert TierTids(level, e, listed)
        == if level < 1 then [TID_POLL_REPLY] else if level < 2 then t else t + [TID_EP_CAPABILITY];
    hide TierTids, DATA_CONFIG;
    DataPlace(t, k);
  }

  lemma DataIsDistinct(listed: bool, e: u16)
    requires e != 0
    ensures NoneTwice(TierTids(1, e, listed))
  {
    DataConfigList();
    assert TierTids(1, e, listed) == [TID_POLL_REPLY] + DATA_CONFIG;
    hide TierTids, DATA_CONFIG;
  }

  lemma DataPlace(t: seq<u16>, k: nat)
    requires k < |P.TABLE| && P.TABLE[k].data && t == [TID_POLL_REPLY] + DATA_CONFIG
    ensures P.TABLE[k].tid in t <==> P.TABLE[k].tid != TID_DG_LEVEL_FOLDBACK
    ensures TID_DG_LEVEL_FOLDBACK !in t
  {
    DataEntries();
    MoreDataEntries();
    DataConfigList();
    LastEntry();
    EntrySlot(k);
    assert 10 <= k < 24;
    hide P.TABLE, DATA_CONFIG, SLOT_TIDS, ENTRY_SLOTS;
    if k < 23 {
      var i := if k <= 14 then k - 10 else if k == 15 then 12 else k - 11;
      assert t[i + 1] == DATA_CONFIG[i] == P.TABLE[k].tid;
    }
  }

  lemma LastEntry()
    ensures |P.TABLE| == 24 && P.TABLE[23].tid == TID_DG_LEVEL_FOLDBACK
  {
  }
}
