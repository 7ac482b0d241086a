/** The region map of shim_iface.h, shared by the shim, the loader and the patch generator. Addresses are
    cached (P1) virtual ones, as in the header. */
module Iface {
  import opened Words

  const SHIM_BASE: u32 := 0x8cfc_0000
  const SHIM_CODE_MAX := 0x8000
  const G1_MIRROR: u32 := 0x8cfc_8800
  const G1_MIRROR_LEN := 0x800
  const SHIM_BOUNCE: u32 := 0x8cfc_a000
  const BIOS_DATA_60000: u32 := 0x8cfc_b000
  const BIOS_DATA_60000_LEN := 0x7000
  const BIOS_DATA_1FFD00: u32 := 0x8cfd_2000
  const BIOS_DATA_1FFD00_LEN := 0x70
  const MAPLE_MIRROR: u32 := 0x8cfd_3000
  const MAPLE_MIRROR_LEN := 0x100
  const GD_STACK_TOP: u32 := 0x8cfd_8000
  const STAGING_ADDR: u32 := 0x8cd0_0000
  const GAME_LOAD_ADDR: u32 := 0x8c02_0000
  const GAME_LEN := 0x10_0000
  const CART_FAD := 451878
  const CART_SIZE := 0x680_0000

  /** The physical address behind a P1 one, and the uncached (P2) alias of it. */
  function Phys(a: u32): int { a - 0x8000_0000 }
  function P2Addr(a: u32): int { a + 0x2000_0000 }
}
