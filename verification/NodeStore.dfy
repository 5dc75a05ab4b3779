/**
 The node's parameter store: one blob per TID in a fixed slot, and the two ways
 a blob is written.
 */
module NodeStore {
  import opened Bytes
  import opened Tids
  import opened NodeProfile

  const BLOB_MAX_BYTES: nat := 512

  datatype ValueType = Empty | U8 | U16Value | U32Value | Text | Raw

  /** A parameter value; its stale flags say who has yet to learn of a change. */
  datatype Blob = Blob(tid: u16, value: seq<byte>, valueType: ValueType, managerStale: bool, uiStale: bool)

  /** The TID of every slot: 26 for the root endpoint, then 18 for the data endpoint. */
  const SLOT_TIDS: seq<u16> := [
    TID_RT_SUPPORTED_TIDS, TID_RT_ENDPOINT_COUNT, TID_RT_PROTOCOL_VERSION, TID_RT_FIRMWARE_VERSION,
    TID_RT_DEVICE_LABEL, TID_RT_MULT, TID_RT_IDENTIFY, TID_RT_STATUS, TID_RT_ROLE_CAPABILITY, TID_RT_REBOOT,
    TID_RT_MODEL_NAME, TID_RT_SCOPE, TID_RT_UNPROVISION, TID_NW_MAC_ADDRESS, TID_NW_IPV4_MODE,
    TID_NW_IPV4_ADDRESS, TID_NW_IPV4_NETMASK, TID_NW_IPV4_GATEWAY, TID_NW_IPV4_CURRENT, TID_NW_IPV6_MODE,
    TID_NW_IPV6_ADDRESS, TID_NW_IPV6_PREFIX, TID_NW_IPV6_GATEWAY, TID_NW_IPV6_CURRENT, TID_DG_SECURITY_EVENT,
    TID_DG_MESSAGE,
    TID_EP_UNIVERSE, TID_EP_LABEL, TID_EP_MULT_OVERRIDE, TID_EP_CAPABILITY, TID_EP_DIRECTION,
    TID_EP_INPUT_PRIORITY, TID_EP_STATUS, TID_EP_FAILOVER, TID_EP_DMX_TIMING, TID_EP_REFRESH_CAPABILITY,
    TID_EP_PROTOCOL, TID_RDM_PORT_CONFIG, TID_RDM_TOD_DATA, TID_RDM_FLOW_CONTROL, TID_DG_LEVEL_FOLDBACK,
    TID_LEVEL, TID_PRIORITY, TID_SYNC]

  const SLOTS: nat := 44
  const ROOT_SLOTS: nat := 26

  /** The counts the lookup uses: the last slot of each half is never searched. */
  const ROOT_SEARCHED: nat := 25
  const DATA_SEARCHED: nat := 17

  /** Slots the lookup can reach. */
  predicate Searched(i: int) {
    0 <= i < ROOT_SEARCHED || ROOT_SLOTS <= i < ROOT_SLOTS + DATA_SEARCHED
  }

  /** Every slot is labelled with its own TID. */
  ghost predicate InPlace(s: seq<Blob>) {
    |s| == SLOTS == |SLOT_TIDS| && forall i :: 0 <= i < SLOTS ==> s[i].tid == SLOT_TIDS[i]
  }

  /** The first searched slot labelled `tid`, or -1. */
  ghost predicate IsSlotFor(s: seq<Blob>, tid: u16, r: int) {
    && |s| == SLOTS
    && (r == -1 || (Searched(r) && s[r].tid == tid))
    && (forall i :: Searched(i) && (r == -1 || i < r) ==> s[i].tid != tid)
  }

  method FindSupportedTidBlob(blobs: array<Blob>, tid: u16) returns (r: int)
    requires blobs.Length == SLOTS
    ensures IsSlotFor(blobs[..], tid, r)
  {
    for i := 0 to ROOT_SEARCHED
      invariant forall k :: 0 <= k < i ==> blobs[k].tid != tid
    {
      if blobs[i].tid == tid {
        return i;
      }
    }
    for i := 0 to DATA_SEARCHED
      invariant forall k :: 0 <= k < ROOT_SEARCHED ==> blobs[k].tid != tid
      invariant forall k :: ROOT_SLOTS <= k < ROOT_SLOTS + i ==> blobs[k].tid != tid
    {
      if blobs[ROOT_SLOTS + i].tid == tid {
        return ROOT_SLOTS + i;
      }
    }
    return -1;
  }

  /** The slot for `tid` among labels, searched from slot `from` on. */
  function SlotFrom(labels: seq<u16>, tid: u16, from: nat): (r: int)
    requires |labels| == SLOTS && from <= SLOTS
    ensures r == -1 || (from <= r < SLOTS && Searched(r) && labels[r] == tid)
    ensures forall i :: from <= i < (if r == -1 then SLOTS else r) && Searched(i) ==> labels[i] != tid
    decreases SLOTS - from
  {
    if from == SLOTS then -1
    else if Searched(from) && labels[from] == tid then from
    else SlotFrom(labels, tid, from + 1)
  }

  lemma SlotCount()
    ensures |SLOT_TIDS| == SLOTS
  {
  }

  function SlotOf(tid: u16): int {
    SlotCount();
    SlotFrom(SLOT_TIDS, tid, 0)
  }

  /** With every slot labelled as it should be, lookup depends on the TID alone. */
  lemma LookupIsFixed(s: seq<Blob>, tid: u16, r: int)
    requires InPlace(s) && IsSlotFor(s, tid, r)
    ensures r == SlotOf(tid)
  {
    hide SLOT_TIDS, SlotFrom;
    var q := SlotOf(tid);
  }

  // Which slots hold which TIDs, as the readers of the store name them.

  lemma RootSlots()
    ensures && |SLOT_TIDS| == SLOTS
            && SLOT_TIDS[1] == TID_RT_ENDPOINT_COUNT
            && SLOT_TIDS[5] == TID_RT_MULT
            && SLOT_TIDS[4] == TID_RT_DEVICE_LABEL
            && SLOT_TIDS[6] == TID_RT_IDENTIFY
            && SLOT_TIDS[7] == TID_RT_STATUS
  {
  }

  lemma VersionSlots()
    ensures && |SLOT_TIDS| == SLOTS
            && SLOT_TIDS[2] == TID_RT_PROTOCOL_VERSION
            && SLOT_TIDS[3] == TID_RT_FIRMWARE_VERSION
  {
  }

  lemma FirstSlot(i: nat)
    requires i == 0
    ensures |SLOT_TIDS| == SLOTS && SLOT_TIDS[i] == TID_RT_SUPPORTED_TIDS
  {
  }

  lemma FullSlots()
    ensures && |SLOT_TIDS| == SLOTS
            && SLOT_TIDS[8] == TID_RT_ROLE_CAPABILITY
            && SLOT_TIDS[10] == TID_RT_MODEL_NAME
            && SLOT_TIDS[24] == TID_DG_SECURITY_EVENT
  {
  }

  lemma DataSlots()
    ensures && |SLOT_TIDS| == SLOTS
            && SLOT_TIDS[37] == TID_RDM_PORT_CONFIG
            && SLOT_TIDS[39] == TID_RDM_FLOW_CONTROL
            && SLOT_TIDS[26] == TID_EP_UNIVERSE
            && SLOT_TIDS[27] == TID_EP_LABEL
            && SLOT_TIDS[28] == TID_EP_MULT_OVERRIDE
            && SLOT_TIDS[30] == TID_EP_DIRECTION
            && SLOT_TIDS[31] == TID_EP_INPUT_PRIORITY
            && SLOT_TIDS[32] == TID_EP_STATUS
            && SLOT_TIDS[33] == TID_EP_FAILOVER
            && SLOT_TIDS[34] == TID_EP_DMX_TIMING
            && SLOT_TIDS[35] == TID_EP_REFRESH_CAPABILITY
            && SLOT_TIDS[36] == TID_EP_PROTOCOL
            && SLOT_TIDS[29] == TID_EP_CAPABILITY
  {
  }

  /** Slot labels are unique, so a reachable slot is found under its own TID. */
  lemma LabelsDiffer(i: nat, j: nat)
    requires |SLOT_TIDS| == SLOTS && i < j < SLOTS
    ensures SLOT_TIDS[i] != SLOT_TIDS[j]
  {
    hide SLOT_TIDS;
    if j < ROOT_SLOTS {
      RootLabelsDiffer(i, j);
    } else if i >= ROOT_SLOTS {
      DataLabelsDiffer(i, j);
    } else {
      RootLabel(i);
      DataLabel(j);
    }
  }

  lemma RootLabelsDiffer(i: nat, j: nat)
    requires i < j < ROOT_SLOTS
    ensures |SLOT_TIDS| == SLOTS && SLOT_TIDS[i] != SLOT_TIDS[j]
  {
  }

  lemma DataLabelsDiffer(i: nat, j: nat)
    requires ROOT_SLOTS <= i < j < SLOTS
    ensures |SLOT_TIDS| == SLOTS && SLOT_TIDS[i] != SLOT_TIDS[j]
  {
  }

  lemma RootLabel(i: nat)
    requires i < ROOT_SLOTS
    ensures |SLOT_TIDS| == SLOTS && (0x0400 <= SLOT_TIDS[i] < 0x0700 || 0xFF01 <= SLOT_TIDS[i] <= 0xFF02)
  {
  }

  lemma DataLabel(j: nat)
    requires ROOT_SLOTS <= j < SLOTS
    ensures |SLOT_TIDS| == SLOTS
    ensures SLOT_TIDS[j] < 0x0400 || 0x0900 <= SLOT_TIDS[j] < 0x0A00 || SLOT_TIDS[j] == 0xFF03
  {
  }

  lemma SlotOfLabel(i: nat)
    requires |SLOT_TIDS| == SLOTS && i < SLOTS && Searched(i)
    ensures SlotOf(SLOT_TIDS[i]) == i
  {
    var r := SlotOf(SLOT_TIDS[i]);
    hide SLOT_TIDS, SlotFrom;
    if r < i {
      LabelsDiffer(r, i);
    }
  }

  /** The lookup reaches every slot but the last of each half: those two TIDs have no slot to it. */
  lemma ReachIsExact(i: nat)
    requires i < SLOTS == |SLOT_TIDS|
    ensures SlotOf(SLOT_TIDS[i]) == if i == 25 || i == 43 then -1 else i
  {
    hide SLOT_TIDS, SlotFrom;
    if i == 25 || i == 43 {
      var r := SlotOf(SLOT_TIDS[i]);
      if 0 <= r < i {
        LabelsDiffer(r, i);
      } else if r > i {
        LabelsDiffer(i, r);
      }
    } else {
      SlotOfLabel(i);
    }
  }

  /** The slot of each parameter in the profile's table. */
  const ENTRY_SLOTS: seq<nat> :=
    [1, 2, 3, 4, 5, 6, 7, 8, 10, 24, 37, 39, 26, 27, 28, 29, 30, 31, 32, 33, 34, 35, 36, 40]

  lemma EntrySlot(i: nat)
    requires i < |TABLE|
    ensures |ENTRY_SLOTS| == |TABLE| && |SLOT_TIDS| == SLOTS
    ensures Searched(ENTRY_SLOTS[i]) && SLOT_TIDS[ENTRY_SLOTS[i]] == TABLE[i].tid
    ensures TABLE[i].tid != TID_POLL_REPLY && TABLE[i].tid != TID_RT_SUPPORTED_TIDS
    ensures TABLE[i].root == (ENTRY_SLOTS[i] < ROOT_SLOTS) && TABLE[i].data == !TABLE[i].root
  {
  }

  /**
   Every parameter of the profile has a slot the lookup reaches, in the half of
   the store that belongs to its endpoint: the table and the store agree.
   */
  lemma EveryParameterIsStored(tid: u16)
    requires IndexOf(TABLE, tid) >= 0
    ensures 0 <= SlotOf(tid) < SLOTS
    ensures IsTidAllowedForEndpoint(tid, 0) ==> SlotOf(tid) < ROOT_SLOTS
    ensures forall e: u16 :: e != 0 && IsTidAllowedForEndpoint(tid, e) ==> SlotOf(tid) >= ROOT_SLOTS
  {
    var i := IndexOf(TABLE, tid);
    hide SLOT_TIDS, SlotOf, TABLE, ENTRY_SLOTS, IndexOf;
    EntrySlot(i);
    SlotOfLabel(ENTRY_SLOTS[i]);
  }

  // ------------------------------------------------------------------ writing

  /** StoreBlobFromBytes: overwrites a blob unless the value is too long. */
  function StoreBlob(b: Blob, tid: u16, value: seq<byte>, valueType: ValueType): Option<Blob> {
    if |value| > BLOB_MAX_BYTES then None else Some(b.(tid := tid, value := value, valueType := valueType))
  }

  /** StoreNodeBlobFromBytesIfChanged: also says whether label, value or type changed. */
  function StoreIfChanged(b: Blob, tid: u16, value: seq<byte>, valueType: ValueType): (r: Option<(Blob, bool)>)
    ensures r.Some? ==> (r.value.1 <==> r.value.0 != b)
  {
    if |value| > BLOB_MAX_BYTES then None
    else if b.tid == tid && b.value == value && b.valueType == valueType then Some((b, false))
    else Some((b.(tid := tid, value := value, valueType := valueType), true))
  }

  // ---------------------------------------------------------------- invariant

  /** The store invariant: labels in place, no value too long, every constrained value valid. */
  ghost predicate StoreValid(s: seq<Blob>) {
    && InPlace(s)
    && (forall i :: 0 <= i < |s| ==> |s[i].value| <= BLOB_MAX_BYTES)
    && (forall i :: 0 <= i < |s| && IsConstrained(s[i].tid) ==> IsValidSetPayload(s[i].tid, s[i].value))
  }

  /** Writing a valid value of the right TID keeps the invariant. */
  lemma WriteKeepsValid(s: seq<Blob>, i: nat, b: Blob)
    requires StoreValid(s) && i < |s| && b.tid == s[i].tid && |b.value| <= BLOB_MAX_BYTES
    requires IsConstrained(b.tid) ==> IsValidSetPayload(b.tid, b.value)
    ensures StoreValid(s[i := b])
  {
    hide SLOT_TIDS, IsConstrained, IsValidSetPayload;
  }

  /** A store with all manager flags of the searched slots cleared. */
  function ClearManagerFlags(s: seq<Blob>): (r: seq<Blob>)
    ensures |r| == |s|
    ensures forall i :: 0 <= i < |s| ==> r[i] == if Searched(i) then s[i].(managerStale := false) else s[i]
  {
    seq(|s|, i requires 0 <= i < |s| => if Searched(i) then s[i].(managerStale := false) else s[i])
  }

  method ClearAllManagerStaleFlags(blobs: array<Blob>)
    requires blobs.Length == SLOTS
    modifies blobs
    ensures blobs[..] == ClearManagerFlags(old(blobs[..]))
  {
    for i := 0 to ROOT_SEARCHED
      invariant forall k :: 0 <= k < SLOTS ==>
                  blobs[k] == if k < i then old(blobs[k]).(managerStale := false) else old(blobs[k])
    {
      blobs[i] := blobs[i].(managerStale := false);
    }
    for i := 0 to DATA_SEARCHED
      invariant forall k :: 0 <= k < SLOTS ==>
                  blobs[k] == if k < ROOT_SEARCHED || ROOT_SLOTS <= k < ROOT_SLOTS + i
                              then old(blobs[k]).(managerStale := false) else old(blobs[k])
    {
      blobs[ROOT_SLOTS + i] := blobs[ROOT_SLOTS + i].(managerStale := false);
    }
  }

  lemma ClearKeepsValid(s: seq<Blob>)
    requires StoreValid(s)
    ensures StoreValid(ClearManagerFlags(s))
  {
    hide SLOT_TIDS, IsConstrained, IsValidSetPayload;
  }
}
