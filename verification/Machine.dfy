/** The 64-bit machine the C code runs on. */
module Machine {
  type Byte = n: int | 0 <= n < 256

  const SIZE_MAX: nat := 0xFFFF_FFFF_FFFF_FFFF

  /** Size of a pointer and of the header word. */
  const WORD: nat := 8

  /** No object is larger: what malloc refuses. */
  const OBJECT_MAX: nat := 0x7FFF_FFFF_FFFF_FFFF

  /** Addition and subtraction of size_t values. */
  function Wrapped(n: nat): nat {
    n % (SIZE_MAX + 1)
  }
}
