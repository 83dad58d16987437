/** The integer widths that cross the host/guest boundary. */
module Numeric {

  /** One byte of guest linear memory. */
  type Byte = b: int | 0 <= b < 0x100

  /** One UTF-16 code unit; host strings are sequences of these. */
  type Unit = u: int | 0 <= u < 0x1_0000

  /** A `Uint32Array` element stores its value modulo this. */
  const WordModulus: int := 0x1_0000_0000
}
