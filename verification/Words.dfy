/** Fixed-width unsigned integers and the wrapping timer differences of platforms/timer.h. */
module Words {
  type Byte = x: nat | x < 0x100
  type Word16 = x: nat | x < 0x1_0000
  type Word32 = x: nat | x < 0x1_0000_0000

  /** TIMER_DIFF_16: the difference of two 16-bit readings, modulo 2^16. */
  function Diff16(a: Word16, b: Word16): Word16 {
    (a - b) % 0x1_0000
  }

  /** TIMER_DIFF_32: the difference of two 32-bit readings, modulo 2^32. */
  function Diff32(a: Word32, b: Word32): Word32 {
    (a - b) % 0x1_0000_0000
  }

  /** 32-bit addition with wrap-around. */
  function Add32(a: Word32, b: Word32): Word32 {
    (a + b) % 0x1_0000_0000
  }

  /** The cast (int32_t) of a 32-bit value. */
  function Signed32(a: Word32): int {
    if a < 0x8000_0000 then a else a - 0x1_0000_0000
  }
}
