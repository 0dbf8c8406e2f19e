/** Types shared by the models: optional values, bytes and machine integers. */
module Common {

  datatype Option<T> = None | Some(value: T)

  const TWO32: nat := 0x1_0000_0000
  const TWO63: nat := 0x8000_0000_0000_0000
  const TWO64: nat := 0x1_0000_0000_0000_0000
  const U32_MAX: nat := TWO32 - 1
  const U64_MAX: nat := TWO64 - 1

  type Byte = b: int | 0 <= b < 256
  type Bytes = seq<Byte>

  type U32 = n: int | 0 <= n < TWO32
  type U64 = n: int | 0 <= n < TWO64

  function W32(x: nat): U32 { x % TWO32 }

  function W64(x: nat): U64 { x % TWO64 }
}
