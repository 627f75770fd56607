/** What the modules of the runtime share: `alt_u32` and the kinds of return codes. */
module Hal {

  const WORD: nat := 0x1_0000_0000

  type U32 = x: int | 0 <= x < WORD

  datatype Status = Ok | Invalid | NotSupported
}
