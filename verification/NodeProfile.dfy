/**
 The node's profile: the table of supported TIDs with its attributes, and the
 validation of SET values.
 */
module NodeProfile {
  import opened Bytes
  import opened Tids

  datatype Entry = Entry(tid: u16, root: bool, data: bool, writeOnly: bool, get: bool, persistent: bool)

  const TABLE: seq<Entry> := [
    Entry(TID_RT_ENDPOINT_COUNT,     true,  false, false, true, false),
    Entry(TID_RT_PROTOCOL_VERSION,   true,  false, false, true, false),
    Entry(TID_RT_FIRMWARE_VERSION,   true,  false, false, true, false),
    Entry(TID_RT_DEVICE_LABEL,       true,  false, false, true, true),
    Entry(TID_RT_MULT,               true,  false, false, true, true),
    Entry(TID_RT_IDENTIFY,           true,  false, false, true, false),
    Entry(TID_RT_STATUS,             true,  false, false, true, false),
    Entry(TID_RT_ROLE_CAPABILITY,    true,  false, false, true, false),
    Entry(TID_RT_MODEL_NAME,         true,  false, false, true, false),
    Entry(TID_DG_SECURITY_EVENT,     true,  false, false, true, false),
    Entry(TID_RDM_PORT_CONFIG,       false, true,  false, true, true),
    Entry(TID_RDM_FLOW_CONTROL,      false, true,  false, true, false),
    Entry(TID_EP_UNIVERSE,           false, true,  false, true, true),
    Entry(TID_EP_LABEL,              false, true,  false, true, true),
    Entry(TID_EP_MULT_OVERRIDE,      false, true,  false, true, true),
    Entry(TID_EP_CAPABILITY,         false, true,  false, true, false),
    Entry(TID_EP_DIRECTION,          false, true,  false, true, true),
    Entry(TID_EP_INPUT_PRIORITY,     false, true,  false, true, true),
    Entry(TID_EP_STATUS,             false, true,  false, true, false),
    Entry(TID_EP_FAILOVER,           false, true,  false, true, true),
    Entry(TID_EP_DMX_TIMING,         false, true,  false, true, true),
    Entry(TID_EP_REFRESH_CAPABILITY, false, true,  false, true, false),
    Entry(TID_EP_PROTOCOL,           false, true,  false, true, true),
    Entry(TID_DG_LEVEL_FOLDBACK,     false, true,  false, true, false)]

  /** The first entry for `tid`, or -1. */
  function IndexOf(t: seq<Entry>, tid: u16): (r: int)
    ensures -1 <= r < |t|
    ensures r >= 0 ==> t[r].tid == tid
    ensures forall i :: 0 <= i < (if r >= 0 then r else |t|) ==> t[i].tid != tid
  {
    if t == [] then -1
    else
      var front := IndexOf(t[..|t| - 1], tid);
      if front >= 0 then front else if t[|t| - 1].tid == tid then |t| - 1 else -1
  }

  /** The table scan shared by the attribute queries. */
  method ScanTable(tid: u16) returns (r: int)
    ensures r == IndexOf(TABLE, tid)
  {
    hide TABLE;
    for i := 0 to |TABLE|
      invariant forall k :: 0 <= k < i ==> TABLE[k].tid != tid
    {
      if TABLE[i].tid == tid {
        return i;
      }
    }
    return -1;
  }

  predicate IsTidPersistent(tid: u16) {
    var i := IndexOf(TABLE, tid); i >= 0 && TABLE[i].persistent
  }

  predicate IsTidWriteOnly(tid: u16) {
    var i := IndexOf(TABLE, tid); i >= 0 && TABLE[i].writeOnly
  }

  predicate IsTidGetSupported(tid: u16) {
    tid == TID_RT_SUPPORTED_TIDS || var i := IndexOf(TABLE, tid); i >= 0 && TABLE[i].get
  }

  /** Whether a TID belongs on the root endpoint (0) or on a data endpoint (any other). */
  predicate IsTidAllowedForEndpoint(tid: u16, endpoint: u16) {
    if tid == TID_POLL_REPLY then true
    else if tid == TID_RT_SUPPORTED_TIDS then endpoint == 0
    else
      var i := IndexOf(TABLE, tid);
      if i >= 0 then if endpoint == 0 then TABLE[i].root else TABLE[i].data
      else
        && endpoint != 0
        && (tid == TID_RDM_TOD_DATA || tid == TID_LEVEL || tid == TID_PRIORITY
            || tid == TID_SYNC || tid == TID_TIMECODE)
  }

  const MAX_TEXT: nat := 65
  const MIN_UNIVERSE: nat := 1
  const MAX_UNIVERSE: nat := 63999

  predicate IsTextTid(tid: u16) {
    tid == TID_RT_DEVICE_LABEL || tid == TID_RT_MODEL_NAME || tid == TID_EP_LABEL
  }

  /** Strict validation of a SET: exact lengths and value ranges, TID by TID. */
  predicate IsValidSetPayload(tid: u16, value: seq<byte>) {
    value != [] &&
    if IsTextTid(tid) then |value| <= MAX_TEXT
    else if tid == TID_RT_MULT then |value| == 1 && value[0] < 2
    else if tid == TID_RT_IDENTIFY then |value| == 1 && value[0] < 5
    else if tid == TID_EP_DIRECTION then |value| == 1 && value[0] <= 7
    else if tid == TID_EP_FAILOVER then |value| == 3 && value[0] <= 4
    else if tid == TID_EP_DMX_TIMING then |value| == 2 && value[0] <= 1 && value[1] <= 2
    else if tid == TID_EP_UNIVERSE then |value| == 2 && MIN_UNIVERSE <= FromU16(value) <= MAX_UNIVERSE
    else if tid == TID_EP_INPUT_PRIORITY then |value| == 1
    else if tid == TID_EP_MULT_OVERRIDE then |value| == 4
    else if tid == TID_EP_PROTOCOL then |value| == 1
    else if tid == TID_RDM_PORT_CONFIG then |value| == 1
    else true
  }

  /** The TIDs whose values that validation constrains. */
  predicate IsConstrained(tid: u16) {
    || IsTextTid(tid) || tid == TID_RT_MULT || tid == TID_RT_IDENTIFY
    || tid == TID_EP_DIRECTION || tid == TID_EP_FAILOVER
    || tid == TID_EP_DMX_TIMING || tid == TID_EP_UNIVERSE || tid == TID_EP_INPUT_PRIORITY || tid == TID_EP_MULT_OVERRIDE
    || tid == TID_EP_PROTOCOL || tid == TID_RDM_PORT_CONFIG
  }

  const CORE_TIDS: seq<u16> := [TID_POLL, TID_POLL_REPLY, TID_SET_REPLY, TID_RT_SUPPORTED_TIDS]
  const ADVERTISED: nat := 28

  lemma ProfileCounts()
    ensures |CORE_TIDS| + |TABLE| == ADVERTISED
  {
  }

  /** The TIDs a node advertises: the protocol's own, then the profile's. */
  function AdvertisedTid(n: nat): u16
    requires n < |CORE_TIDS| + |TABLE|
  {
    if n < |CORE_TIDS| then CORE_TIDS[n] else TABLE[n - |CORE_TIDS|].tid
  }

  /** The first `n` of them, two bytes each. */
  function AdvertisedBytes(n: nat): (s: seq<byte>)
    requires n <= |CORE_TIDS| + |TABLE|
    ensures |s| == 2 * n
  {
    if n == 0 then [] else AdvertisedBytes(n - 1) + U16(AdvertisedTid(n - 1))
  }

  /** The list holds every advertised TID in order, big-endian. */
  lemma {:induction false} AdvertisedAt(n: nat, k: nat)
    requires k < n <= |CORE_TIDS| + |TABLE|
    ensures AdvertisedBytes(n)[2 * k] == AdvertisedTid(k) / 0x100
    ensures AdvertisedBytes(n)[2 * k + 1] == AdvertisedTid(k) % 0x100
  {
    hide TABLE, CORE_TIDS, AdvertisedTid;
    if k < n - 1 {
      AdvertisedAt(n - 1, k);
    }
  }

  /** Appends one TID to a list if there is room. */
  method PutTid(out: array<byte>, ghost n: nat, count: nat, tid: u16) returns (full: bool, next: nat)
    requires n < |CORE_TIDS| + |TABLE| && tid == AdvertisedTid(n)
    requires count == 2 * n <= out.Length && out[..count] == AdvertisedBytes(n)
    modifies out
    ensures full == (count + 2 > out.Length)
    ensures next == if full then count else count + 2
    ensures out[..next] == AdvertisedBytes(if full then n else n + 1)
  {
    hide TABLE, CORE_TIDS, AdvertisedTid;
    if count + 2 > out.Length {
      return true, count;
    }
    ghost var before := out[..count];
    out[count], out[count + 1] := tid / 0x100, tid % 0x100;
    assert out[..count + 2] == before + U16(tid);
    return false, count + 2;
  }

  /** Lists the supported TIDs in a buffer that may be too small for all of them. */
  method BuildSupportedTidBytes(out: array<byte>) returns (count: nat)
    modifies out
    ensures count == 2 * (if out.Length / 2 < ADVERTISED then out.Length / 2 else ADVERTISED)
    ensures count / 2 <= |CORE_TIDS| + |TABLE| && out[..count] == AdvertisedBytes(count / 2)
  {
    hide TABLE, CORE_TIDS, AdvertisedBytes;
    ProfileCounts();
    count := 0;
    NothingAdvertised();
    assert out[..0] == [];
    var full;
    for i := 0 to |CORE_TIDS|
      invariant count == 2 * i <= out.Length
      invariant out[..count] == AdvertisedBytes(i)
    {
      full, count := PutTid(out, i, count, CORE_TIDS[i]);
      if full {
        return;
      }
    }
    for i := 0 to |TABLE|
      invariant count == 2 * (|CORE_TIDS| + i) <= out.Length
      invariant out[..count] == AdvertisedBytes(|CORE_TIDS| + i)
    {
      full, count := PutTid(out, |CORE_TIDS| + i, count, TABLE[i].tid);
      if full {
        break;
      }
    }
  }

  lemma NothingAdvertised()
    ensures AdvertisedBytes(0) == []
  {
  }
}
