/**
 The values a node starts with: the profile's defaults and the two taken from
 the user interface, the device label and the universe.
 */
module NodeDefaults {
  import opened Bytes
  import opened Tids
  import opened NodeProfile
  import opened NodeStore

  const DEFAULT_ENDPOINT_COUNT: seq<byte> := [0x00, 0x01]
  const DEFAULT_PROTOCOL_VERSION: seq<byte> := [0x01]
  const DEFAULT_FIRMWARE_TEXT: seq<byte> := Ascii("v1.08 Spec")
  const APP_VERSION_ID: u16 := 0x0006
  const DEFAULT_DEVICE_LABEL: seq<byte> := Ascii("Sig-Net Node")
  const DEFAULT_MULT: seq<byte> := [0x00]
  const DEFAULT_IDENTIFY: seq<byte> := [0x00]
  const DEFAULT_STATUS: seq<byte> := [0x00, 0x00, 0x00, 0x00]
  const DEFAULT_ROLE_CAPABILITY: seq<byte> := [0x00, 0x00, 0x00, 0x01]
  const DEFAULT_MODEL_NAME: seq<byte> := Ascii("Fogmaster 5000")
  const FIXED_SCOPE: seq<byte> := Ascii("local")
  const DEFAULT_UNIVERSE: u16 := 1
  const DEFAULT_EP_LABEL: seq<byte> := Ascii("EP1")
  const DEFAULT_MULT_OVERRIDE: seq<byte> := [0x00, 0x00, 0x00, 0x00]
  const DEFAULT_DIRECTION: seq<byte> := [0x05]
  const DEFAULT_INPUT_PRIORITY: seq<byte> := [100]
  const DEFAULT_FAILOVER: seq<byte> := [0x00, 0x00, 0x00]
  const DEFAULT_CAPABILITY: seq<byte> := [0x15]
  const DEFAULT_REFRESH_CAPABILITY: seq<byte> := [44]
  const DEFAULT_DMX_TIMING: seq<byte> := [0x00, 0x00]
  const DEFAULT_PROTOCOL: seq<byte> := [0x00]
  const DEFAULT_RDM_PORT_CONFIG: seq<byte> := [0x01]
  const DEFAULT_RDM_FLOW_CONTROL: seq<byte> := [0x00, 0x00]
  const DEFAULT_SECURITY_EVENT: seq<byte> := [0x00]

  const ENCODING_UTF8: byte := 0x00

  /** A text in wire form: its encoding byte and at most `limit` characters; the length is a 16-bit number. */
  function WireText(text: seq<byte>, limit: nat): (s: seq<byte>)
    ensures 1 <= |s| <= 1 + limit
  {
    var n := |text| % WRAP16;
    [ENCODING_UTF8] + text[..if n > limit then limit else n]
  }

  /** What the store holds for a TID before the first SET; slots the form never fills are empty. */
  function InitialValue(tid: u16, deviceLabel: seq<byte>, universe: u16): seq<byte> {
    if tid == TID_RT_ENDPOINT_COUNT then DEFAULT_ENDPOINT_COUNT
    else if tid == TID_RT_PROTOCOL_VERSION then DEFAULT_PROTOCOL_VERSION
    else if tid == TID_RT_FIRMWARE_VERSION then U16(APP_VERSION_ID) + DEFAULT_FIRMWARE_TEXT
    else if tid == TID_RT_DEVICE_LABEL then WireText(deviceLabel, BLOB_MAX_BYTES - 1)
    else if tid == TID_RT_MULT then DEFAULT_MULT
    else if tid == TID_RT_IDENTIFY then DEFAULT_IDENTIFY
    else if tid == TID_RT_STATUS || tid == TID_EP_STATUS then DEFAULT_STATUS
    else if tid == TID_RT_ROLE_CAPABILITY then DEFAULT_ROLE_CAPABILITY
    else if tid == TID_RT_MODEL_NAME then WireText(DEFAULT_MODEL_NAME, BLOB_MAX_BYTES - 1)
    else if tid == TID_RT_SCOPE then FIXED_SCOPE
    else if tid == TID_RT_SUPPORTED_TIDS then SupportedTids()
    else if tid == TID_EP_UNIVERSE then U16(universe)
    else if tid == TID_EP_LABEL then WireText(DEFAULT_EP_LABEL, BLOB_MAX_BYTES - 1)
    else if tid == TID_EP_MULT_OVERRIDE then DEFAULT_MULT_OVERRIDE
    else if tid == TID_EP_DIRECTION then DEFAULT_DIRECTION
    else if tid == TID_EP_INPUT_PRIORITY then DEFAULT_INPUT_PRIORITY
    else if tid == TID_EP_FAILOVER then DEFAULT_FAILOVER
    else if tid == TID_EP_CAPABILITY then DEFAULT_CAPABILITY
    else if tid == TID_EP_REFRESH_CAPABILITY then DEFAULT_REFRESH_CAPABILITY
    else if tid == TID_EP_DMX_TIMING then DEFAULT_DMX_TIMING
    else if tid == TID_EP_PROTOCOL then DEFAULT_PROTOCOL
    else if tid == TID_RDM_PORT_CONFIG then DEFAULT_RDM_PORT_CONFIG
    else if tid == TID_RDM_FLOW_CONTROL then DEFAULT_RDM_FLOW_CONTROL
    else []
  }

  function SupportedTids(): (s: seq<byte>)
    ensures |s| == 2 * ADVERTISED
  {
    ProfileCounts();
    AdvertisedBytes(ADVERTISED)
  }

  function InitialType(tid: u16): ValueType {
    if tid == TID_RT_ENDPOINT_COUNT || tid == TID_EP_UNIVERSE then U16Value
    else if tid == TID_RT_STATUS || tid == TID_EP_STATUS || tid == TID_RT_ROLE_CAPABILITY then U32Value
    else if IsTextTid(tid) || tid == TID_RT_SCOPE then Text
    else if tid == TID_RT_FIRMWARE_VERSION || tid == TID_RT_SUPPORTED_TIDS
         || tid == TID_EP_MULT_OVERRIDE || tid == TID_EP_FAILOVER || tid == TID_EP_DMX_TIMING
         || tid == TID_RDM_FLOW_CONTROL || tid == TID_RDM_TOD_DATA then Raw
    else if tid == TID_RT_PROTOCOL_VERSION || tid == TID_RT_MULT || tid == TID_RT_IDENTIFY || tid == TID_EP_DIRECTION
         || tid == TID_EP_INPUT_PRIORITY || tid == TID_EP_CAPABILITY || tid == TID_EP_REFRESH_CAPABILITY
         || tid == TID_EP_PROTOCOL || tid == TID_RDM_PORT_CONFIG then U8
    else Empty
  }

  function InitialBlob(tid: u16, deviceLabel: seq<byte>, universe: u16): Blob {
    Blob(tid, InitialValue(tid, deviceLabel, universe), InitialType(tid), false, false)
  }

  function InitialStore(deviceLabel: seq<byte>, universe: u16): (s: seq<Blob>)
    ensures |s| == SLOTS == |SLOT_TIDS|
    ensures forall i :: 0 <= i < SLOTS ==> s[i] == InitialBlob(SLOT_TIDS[i], deviceLabel, universe)
  {
    SlotCount();
    seq(SLOTS, i requires 0 <= i < SLOTS == |SLOT_TIDS| => InitialBlob(SLOT_TIDS[i], deviceLabel, universe))
  }

  /** The two values taken from the user interface are the only ones that can be out of range. */
  predicate AcceptableSettings(deviceLabel: seq<byte>, universe: u16) {
    |deviceLabel| % WRAP16 <= MAX_TEXT - 1 && MIN_UNIVERSE <= universe <= MAX_UNIVERSE
  }

  lemma InitialValueIsValid(tid: u16, deviceLabel: seq<byte>, universe: u16)
    requires IsConstrained(tid)
    ensures IsValidSetPayload(tid, InitialValue(tid, deviceLabel, universe)) <==>
            (tid == TID_RT_DEVICE_LABEL ==> |deviceLabel| % WRAP16 <= MAX_TEXT - 1)
            && (tid == TID_EP_UNIVERSE ==> MIN_UNIVERSE <= universe <= MAX_UNIVERSE)
  {
    U16RoundTrip(universe, [0, 0]);
  }

  lemma InitialValueFits(tid: u16, deviceLabel: seq<byte>, universe: u16)
    ensures |InitialValue(tid, deviceLabel, universe)| <= BLOB_MAX_BYTES
  {
    hide SupportedTids;
  }

  /**
   A node starts with a valid store exactly when its label has at most 64
   characters and its universe is in range: the label is not cut to 64 as a
   later commit of the same field is.
   */
  lemma InitialStoreIsValid(deviceLabel: seq<byte>, universe: u16)
    ensures StoreValid(InitialStore(deviceLabel, universe)) <==> AcceptableSettings(deviceLabel, universe)
    ensures InPlace(InitialStore(deviceLabel, universe))
  {
    var s := InitialStore(deviceLabel, universe);
    assert SLOT_TIDS[4] == TID_RT_DEVICE_LABEL && SLOT_TIDS[26] == TID_EP_UNIVERSE;
    assert IsConstrained(TID_RT_DEVICE_LABEL) && IsConstrained(TID_EP_UNIVERSE);
    hide SLOT_TIDS, IsValidSetPayload, InitialValue, IsConstrained;
    forall i | 0 <= i < SLOTS
      ensures |s[i].value| <= BLOB_MAX_BYTES
      ensures AcceptableSettings(deviceLabel, universe) && IsConstrained(s[i].tid) ==>
                IsValidSetPayload(s[i].tid, s[i].value)
    {
      InitialValueFits(s[i].tid, deviceLabel, universe);
      if IsConstrained(s[i].tid) {
        InitialValueIsValid(s[i].tid, deviceLabel, universe);
      }
    }
    InitialValueIsValid(TID_RT_DEVICE_LABEL, deviceLabel, universe);
    InitialValueIsValid(TID_EP_UNIVERSE, deviceLabel, universe);
  }
}
