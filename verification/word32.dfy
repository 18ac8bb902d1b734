// Signed 32-bit arithmetic: int32_t in the kernel, and long, which is 32 bits wide there.
module Word32 {

  const WORD := 0x1_0000_0000

  function Wrap32(x: int): int { (x + WORD / 2) % WORD - WORD / 2 }
}
