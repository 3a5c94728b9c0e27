/** Constants and small types shared by the models (quicfork/internal/protocol). */
module Protocol {

  type Byte = b: int | 0 <= b < 256

  type U16 = n: int | 0 <= n < 0x1_0000
  type U32 = n: int | 0 <= n < 0x1_0000_0000

  const U16_SIZE: nat := 0x1_0000
  const U32_SIZE: nat := 0x1_0000_0000

  /** 32-bit arithmetic. */
  function Wrap(x: int): U32 {
    x % U32_SIZE
  }

  /** Largest stream offset, 2^62 - 1. */
  const MAX_BYTE_COUNT: nat := 0x3FFF_FFFF_FFFF_FFFF

  /** Marks an absent offset or size. */
  const INVALID_BYTE_COUNT: int := -1

  const MAX_STREAM_FRAME_SORTER_GAPS: nat := 1000
  const MIN_STREAM_FRAME_BUFFER_SIZE: nat := 128

  datatype Option<+T> = None | Some(value: T)

  function Min(a: int, b: int): int {
    if a <= b then a else b
  }

  function Max(a: int, b: int): int {
    if a >= b then a else b
  }

  function Pow2(n: nat): (r: nat)
    ensures r > 0
  {
    if n == 0 then 1 else 2 * Pow2(n - 1)
  }

  /** The pieces of a message, put together. */
  function Concat(parts: seq<seq<Byte>>): seq<Byte> {
    if parts == [] then [] else Concat(parts[..|parts| - 1]) + parts[|parts| - 1]
  }

  function Bit(b: bool): nat {
    if b then 1 else 0
  }

  /** Any element of a set. */
  method Pick<T(==)>(s: set<T>) returns (x: T)
    requires s != {}
    ensures x in s
  {
    x :| x in s;
  }
}
