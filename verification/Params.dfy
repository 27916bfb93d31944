/** Kernel parameters (param.h) and the limits of C's integers. */
module Params {
  const MAXOPBLOCKS: nat := 10               // blocks one file-system call may log
  const LOGSIZE: nat := MAXOPBLOCKS * 3      // blocks in the on-disk log
  const NBUF: nat := MAXOPBLOCKS * 3         // buffers in the cache

  const UINT_LIMIT: nat := 0x1_0000_0000     // 2^32
  const INT_MAX: nat := 0x7fff_ffff

  type Byte = b: int | 0 <= b < 256
  type Short = x: int | -0x8000 <= x < 0x8000
  type Uint = x: int | 0 <= x < UINT_LIMIT
}
