/** Constants of firmware/src/rover_config.h and firmware/src/rover_protocol.h. */
module Config {
  import opened Words

  const CAN_ID_CONTROL: u32 := 0x100
  const CAN_ID_TELEM_DRIVE_L: u32 := 0x200
  const CAN_ID_TELEM_DRIVE_R: u32 := 0x201
  const CAN_ID_TELEM_POWER: u32 := 0x202
  const CAN_ID_TELEM_STATE: u32 := 0x203

  const FRAME_DLC: nat := 8
  const FRAME_SEQ_OFFSET: nat := 6
  const FRAME_CRC_OFFSET: nat := 7

  const MODE_DISABLED: u8 := 0
  const MODE_MANUAL: u8 := 1
  const MODE_AUTONOMOUS: u8 := 2

  const CMD_MIN: int := -1000
  const CMD_MAX: int := 1000

  const INDICATOR_OFF: u8 := 0
  const INDICATOR_TELEOP: u8 := 1
  const INDICATOR_AUTONOMOUS: u8 := 2
  const INDICATOR_ARRIVED: u8 := 3
  const INDICATOR_FAULT: u8 := 4

  const LINK_OK: u8 := 0
  const LINK_DEGRADED: u8 := 1
  const LINK_LOST: u8 := 2
  const LINK_NOT_REPORTED: u8 := 3

  const LINK_DEGRADED_HOLD_MS: u32 := 1000
  const CMD_AGE_UNKNOWN: u16 := 0xFFFF
  const CMD_AGE_MAX: u16 := 0xFFFE

  const FAULT_COMM_TIMEOUT: bv16 := 0x0001
  const FAULT_PROTOCOL_ERROR: bv16 := 0x0040
  const FAULT_C2_LINK_LOST: bv16 := 0x0080
  const FAULT_SEQ_GAP: bv16 := 0x0100
  const FAULT_CRC_ERROR: bv16 := 0x0200

  const CTRL_HEALTH_NOT_REPORTED: u8 := 3
}
