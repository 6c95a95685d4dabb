/** The machine the driver is compiled for: bytes, the C integer conversions of an
    LP64 target, kernel error numbers and the limits the kernel puts around the driver. */
module Machine {

  datatype Option<+T> = None | Some(value: T)

  type byte = b: int | 0 <= b < 256

  const NEWLINE: byte := 10
  const NUL: byte := 0

  const ENOMEM := 12
  const EFAULT := 14
  const EINVAL := 22
  const ENOTTY := 25
  const ERESTARTSYS := 512

  /** A file offset. */
  type loff = x: int | -0x8000_0000_0000_0000 <= x < 0x8000_0000_0000_0000

  /** The largest block kmalloc may hand out: the largest M with 10 * M < 2^31.
      Any kernel whose own limit is at most this is covered. */
  const MAX_BLOCK := 214_748_364

  /** The kernel never passes a driver more than this many bytes in one call. */
  const MAX_RW_COUNT := 0x7fff_f000

  /** Conversion to `int`. */
  function ToInt32(x: int): (r: int)
    ensures -0x8000_0000 <= r < 0x8000_0000
    ensures (r - x) % 0x1_0000_0000 == 0
    ensures -0x8000_0000 <= x < 0x8000_0000 ==> r == x
  {
    (x + 0x8000_0000) % 0x1_0000_0000 - 0x8000_0000
  }

  /** Conversion to `uint32_t`. */
  function ToUint32(x: int): (r: int)
    ensures 0 <= r < 0x1_0000_0000
    ensures 0 <= x < 0x1_0000_0000 ==> r == x
  {
    x % 0x1_0000_0000
  }

  /** Conversion to `size_t`. */
  function ToSizeT(x: int): (r: int)
    ensures 0 <= r < 0x1_0000_0000_0000_0000
    ensures 0 <= x < 0x1_0000_0000_0000_0000 ==> r == x
    ensures -0x8000_0000_0000_0000 <= x < 0 ==> r == x + 0x1_0000_0000_0000_0000
  {
    x % 0x1_0000_0000_0000_0000
  }

  /** Conversion to `loff_t` and `ssize_t`; the kernel is built so that signed sums wrap. */
  function ToInt64(x: int): (r: int)
    ensures -0x8000_0000_0000_0000 <= r < 0x8000_0000_0000_0000
    ensures -0x8000_0000_0000_0000 <= x < 0x8000_0000_0000_0000 ==> r == x
  {
    (x + 0x8000_0000_0000_0000) % 0x1_0000_0000_0000_0000 - 0x8000_0000_0000_0000
  }

  /** Every conversion keeps the low bits. */
  lemma LowBitsStay(x: int)
    ensures (ToInt32(x) - x) % 0x1_0000_0000 == 0 && (ToUint32(x) - x) % 0x1_0000_0000 == 0
    ensures (ToInt64(x) - x) % 0x1_0000_0000_0000_0000 == 0 && (ToSizeT(x) - x) % 0x1_0000_0000_0000_0000 == 0
  {
  }

  /** An `int` accumulator holds the mathematical sum modulo 2^32, however often it wrapped. */
  lemma Int32Accumulates(a: int, b: int)
    ensures ToInt32(ToInt32(a) + b) == ToInt32(a + b)
  {
  }
}
