/** Fixed-width integers and 48-bit hardware addresses used by the FLAME routing table.
    An address is only ever compared for equality; its bits carry no meaning here. */
module Mac48 {

  newtype uint8 = x: int | 0 <= x < 0x100
  newtype uint16 = x: int | 0 <= x < 0x1_0000
  newtype uint32 = x: int | 0 <= x < 0x1_0000_0000

  /** A 48-bit IEEE MAC address. */
  newtype Mac48Address = x: int | 0 <= x < 0x1_0000_0000_0000

  /** ff:ff:ff:ff:ff:ff */
  const BROADCAST: Mac48Address := 0xffff_ffff_ffff

  /** The implicit C++ conversion uint32_t -> uint8_t keeps the low 8 bits. */
  function Narrow8(x: uint32): (r: uint8)
    ensures x <= 0xff ==> r as int == x as int
  {
    (x as int % 0x100) as uint8
  }

  /** The implicit C++ conversion uint32_t -> uint16_t keeps the low 16 bits. */
  function Narrow16(x: uint32): (r: uint16)
    ensures x <= 0xffff ==> r as int == x as int
  {
    (x as int % 0x1_0000) as uint16
  }
}
