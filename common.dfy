/** Failure-carrying wrappers and the fixed-width integer conversions used by the layout engine. */
module Common {

  datatype Option<+T> = None | Some(value: T)

  datatype Result<+T, +E> = Ok(value: T) | Err(error: E)

  const U32_LIMIT: int := 0x1_0000_0000
  const I32_LIMIT: int := 0x8000_0000

  /** Rust's `u32`. */
  type u32 = x: int | 0 <= x < 0x1_0000_0000

  /** Rust's `as u32` applied to a value of 32-bit signed range: the two's-complement bits read unsigned. */
  function AsU32(v: int): (r: u32)
    ensures 0 <= v < U32_LIMIT ==> r == v
    ensures -I32_LIMIT <= v < 0 ==> r == v + U32_LIMIT
  {
    v % U32_LIMIT
  }

  /** Rust's `as i32` applied to a `u32`: values from 2^31 on wrap to negatives. */
  function AsI32(v: u32): (r: int)
    ensures -I32_LIMIT <= r < I32_LIMIT
    ensures r <= v
    ensures AsU32(r) == v
  {
    if v < I32_LIMIT then v else v - U32_LIMIT
  }
}
