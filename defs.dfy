/**
 * Register offsets, bit fields, attempt budgets and host-framework codes used by the
 * Intel PRO/1000 hardware layer. The driver takes these from its register header and
 * from the NDIS headers, which are not part of this model; the values below follow the
 * 8254x register layout. Every property of the model is stated in terms of the names.
 */
module Defs {

  // Register offsets, relative to the mapped register window
  const E1000_REG_CTRL: bv32 := 0x0000
  const E1000_REG_STATUS: bv32 := 0x0008
  const E1000_REG_EERD: bv32 := 0x0014
  const E1000_REG_MDIC: bv32 := 0x0020
  const E1000_REG_ICR: bv32 := 0x00C0
  const E1000_REG_IMS: bv32 := 0x00D0
  const E1000_REG_IMC: bv32 := 0x00D8
  const E1000_REG_RCTL: bv32 := 0x0100
  const E1000_REG_RAL: bv32 := 0x5400
  const E1000_REG_RAH: bv32 := 0x5404

  // CTRL
  const E1000_CTRL_RST: bv32 := 1 << 26

  // EERD
  const E1000_EERD_START: bv32 := 1 << 0
  const E1000_EERD_DONE: bv32 := 1 << 4
  const E1000_EERD_ADDR_SHIFT: bv32 := 8
  const E1000_EERD_DATA_SHIFT: bv32 := 16

  // MDIC
  const E1000_MDIC_REGADD_SHIFT: bv32 := 16
  const E1000_MDIC_PHYADD_SHIFT: bv32 := 21
  const E1000_MDIC_PHYADD_GIGABIT: bv32 := 1
  const E1000_MDIC_OP_READ: bv32 := 2 << 26
  const E1000_MDIC_R: bv32 := 1 << 28
  const E1000_MDIC_E: bv32 := 1 << 30
  const E1000_MDIC_DATA_MASK: bv32 := 0xFFFF
  const E1000_MDIC_PHYADD_MASK: bv32 := 0x1F
  const E1000_MDIC_OP_MASK: bv32 := 3 << 26

  // RCTL
  const E1000_RCTL_SBP: bv32 := 1 << 2
  const E1000_RCTL_UPE: bv32 := 1 << 3
  const E1000_RCTL_MPE: bv32 := 1 << 4
  const E1000_RCTL_BAM: bv32 := 1 << 15
  const E1000_RCTL_PMCF: bv32 := 1 << 23
  const E1000_RCTL_FILTER_BITS: bv32 :=
    E1000_RCTL_SBP | E1000_RCTL_UPE | E1000_RCTL_MPE | E1000_RCTL_BAM | E1000_RCTL_PMCF

  // RAH
  const E1000_RAH_AV: bv32 := 1 << 31

  // PHY registers (read through MDIC) and their fields
  const E1000_PHY_STATUS: bv32 := 0x01
  const E1000_PHY_SPECIFIC_STATUS: bv32 := 0x11
  const E1000_PS_LINK_STATUS: bv16 := 1 << 2
  const E1000_PSS_SPEED_AND_DUPLEX: bv16 := 1 << 11
  const E1000_PSS_SPEEDSHIFT: bv16 := 14
  const E1000_PSS_SPEEDMASK: bv16 := 3 << 14

  // EEPROM words
  const E1000_NVM_REG_CHECKSUM: nat := 0x3F
  const NVM_MAGIC_SUM: u16 := 0xBABA

  // Limits and attempt budgets
  const IEEE_802_ADDR_LENGTH: nat := 6
  const MAX_PHY_REG_ADDRESS: bv32 := 0x1F
  const MAX_PHY_READ_ATTEMPTS: nat := 1800
  const MAX_EEPROM_READ_ATTEMPTS: nat := 10000
  const MAX_RESET_ATTEMPTS: nat := 10
  const MAXIMUM_MULTICAST_ADDRESSES: nat := 16

  // Stall lengths of the poll loops, in microseconds
  const MDIC_POLL_STALL: nat := 50
  const EERD_POLL_STALL: nat := 5
  const RESET_POLL_STALL: nat := 100
  const LINK_RETRY_STALL: nat := 100

  // Identity
  const HW_VENDOR_INTEL: bv16 := 0x8086
  /** The supported-device table: the Intel 82545EM (the VMware E1000). */
  const SupportedDevices: seq<bv16> := [0x100f]

  // NDIS packet filter flags
  const NDIS_PACKET_TYPE_ALL_MULTICAST: bv32 := 0x0004
  const NDIS_PACKET_TYPE_BROADCAST: bv32 := 0x0008
  const NDIS_PACKET_TYPE_PROMISCUOUS: bv32 := 0x0020
  const NDIS_PACKET_TYPE_MAC_FRAME: bv32 := 0x8000

  // Resource descriptors
  const CmResourceShareShared: bv8 := 3
  /** Size of the register window among the memory resources. */
  const REGISTER_WINDOW_LENGTH: bv32 := 128 * 1024

  /** The NDIS status codes the hardware layer returns. */
  datatype NdisStatus = Success | Failure | Resources | InvalidData

  /** NDIS media state of the link. */
  datatype MediaState = Connected | Disconnected

  /** A USHORT used as a number (EEPROM words and their checksum). */
  newtype u16 = x: int | 0 <= x < 0x10000

  /** A UCHAR used as a number: an EEPROM word address. */
  type uchar = x: nat | x < 0x100

  datatype Option<T> = None | Some(value: T)

  /** Low 16 bits of a register value, the C cast to USHORT. */
  function Low16(v: bv32): bv16 {
    (v & 0xFFFF) as bv16
  }
}
