/** Machine types shared by every part of the model. */
module Types {

  /** `uint32_t`: every counter, size and checksum of the metadata record. */
  newtype uint32 = x: int | 0 <= x < 0x1_0000_0000

  const UINT32_MAX: uint32 := 0xFFFF_FFFF

  /** One byte of file content. */
  type byte = bv8

  datatype Option<+T> = None | Some(value: T)

  /** `x++` on a `uint32_t`: wraps from UINT32_MAX to 0. */
  function Increment(x: uint32): (r: uint32)
    ensures x < UINT32_MAX ==> r as int == x as int + 1
    ensures x == UINT32_MAX ==> r == 0
  {
    if x == UINT32_MAX then 0 else x + 1
  }

  /** Storing a `size_t` length into a `uint32_t` field keeps its low 32 bits. */
  function TruncateToUint32(n: nat): (r: uint32)
    ensures n < 0x1_0000_0000 ==> r as int == n
  {
    (n % 0x1_0000_0000) as uint32
  }
}
