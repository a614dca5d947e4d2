/** Small value types shared by the agent's model: optional values, results of
    operations that can fail, and Go's uint64 as a bounded integer. */
module Base {

  /** A value that may be absent (Go's nil pointer or nil slice). */
  datatype Option<+T> = None | Some(value: T)

  /** The (value, error) pair of a Go call: exactly one side is meaningful. */
  datatype Result<+T> = Ok(value: T) | Err(error: string)

  /** 2^64, the modulus of Go's uint64 arithmetic. */
  const TWO_TO_THE_64: int := 0x1_0000_0000_0000_0000

  /** Go's uint64. */
  type U64 = x: int | 0 <= x < TWO_TO_THE_64

  /** Go's int on a 64-bit platform. */
  const MIN_INT64: int := -0x8000_0000_0000_0000
  const MAX_INT64: int := 0x7FFF_FFFF_FFFF_FFFF
}
