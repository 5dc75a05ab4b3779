/** Type identifiers of the application layer's TLV blocks. */
module Tids {
  import opened Bytes

  const TID_POLL: u16 := 0x0001
  const TID_POLL_REPLY: u16 := 0x0002
  const TID_SET_REPLY: u16 := 0x0003
  const TID_LEVEL: u16 := 0x0101
  const TID_PRIORITY: u16 := 0x0102
  const TID_SYNC: u16 := 0x0201
  const TID_TIMECODE: u16 := 0x0202
  const TID_RDM_TOD_DATA: u16 := 0x0304
  const TID_RDM_PORT_CONFIG: u16 := 0x0305
  const TID_RDM_FLOW_CONTROL: u16 := 0x0306
  const TID_RT_UNPROVISION: u16 := 0x0401
  const TID_NW_MAC_ADDRESS: u16 := 0x0501
  const TID_NW_IPV4_MODE: u16 := 0x0502
  const TID_NW_IPV4_ADDRESS: u16 := 0x0503
  const TID_NW_IPV4_NETMASK: u16 := 0x0504
  const TID_NW_IPV4_GATEWAY: u16 := 0x0505
  const TID_NW_IPV4_CURRENT: u16 := 0x0506
  const TID_NW_IPV6_MODE: u16 := 0x0581
  const TID_NW_IPV6_ADDRESS: u16 := 0x0582
  const TID_NW_IPV6_PREFIX: u16 := 0x0583
  const TID_NW_IPV6_GATEWAY: u16 := 0x0584
  const TID_NW_IPV6_CURRENT: u16 := 0x0585
  const TID_RT_SUPPORTED_TIDS: u16 := 0x0601
  const TID_RT_ENDPOINT_COUNT: u16 := 0x0602
  const TID_RT_PROTOCOL_VERSION: u16 := 0x0603
  const TID_RT_FIRMWARE_VERSION: u16 := 0x0604
  const TID_RT_DEVICE_LABEL: u16 := 0x0605
  const TID_RT_MULT: u16 := 0x0606
  const TID_RT_IDENTIFY: u16 := 0x0607
  const TID_RT_STATUS: u16 := 0x0608
  const TID_RT_ROLE_CAPABILITY: u16 := 0x0609
  const TID_RT_REBOOT: u16 := 0x060A
  const TID_RT_MODEL_NAME: u16 := 0x060B
  const TID_RT_SCOPE: u16 := 0x060C
  const TID_EP_UNIVERSE: u16 := 0x0901
  const TID_EP_LABEL: u16 := 0x0902
  const TID_EP_MULT_OVERRIDE: u16 := 0x0903
  const TID_EP_CAPABILITY: u16 := 0x0904
  const TID_EP_DIRECTION: u16 := 0x0905
  const TID_EP_INPUT_PRIORITY: u16 := 0x0906
  const TID_EP_STATUS: u16 := 0x0907
  const TID_EP_FAILOVER: u16 := 0x0908
  const TID_EP_DMX_TIMING: u16 := 0x0909
  const TID_EP_REFRESH_CAPABILITY: u16 := 0x090A
  const TID_EP_PROTOCOL: u16 := 0x090B
  const TID_OSC: u16 := 0x0204
  const TID_DG_SECURITY_EVENT: u16 := 0xFF01
  const TID_DG_MESSAGE: u16 := 0xFF02
  const TID_DG_LEVEL_FOLDBACK: u16 := 0xFF03
}
